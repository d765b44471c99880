# basys-3-microblaze-test: the host–board test protocol

This project models, in Dafny, the protocol between the Python test host of
the Basys 3 MicroBlaze test harness and the firmware running on the board:

- **Flash (`flash.dfy`).** The firmware's SPI-flash side
  (sw/src/app_component/src/flash.c):
  - the 32-bit LFSR `LfsrNext` and `pickbit`;
  - the in-place `reverse` byte swap;
  - the quad-read request header and transfer length of `SpiFlashRead`;
  - the read-ID value assembled by `SpiFlashReadId`;
  - `ValidateAgainstLfsr`, which walks 1024 rows of 32 words and counts the
    words that differ from the LFSR sequence.
- **Firmware (`firmware.dfy`).** The firmware's command side
  (sw/src/app_component/src/main.c):
  - the DIO settings word and the status classification of
    `DioCheckTest`/`DioStartTest`;
  - the PS/2 field macros;
  - the ASCII-hex codec `hextoint`/`inttohex`, including its `'F'..'F'`
    upper-case quirk;
  - `ProcessCommands`. It is a class whose fields are the loop's locals and
    whose `buffer` is the 256-byte array. Each pass of its loop is proved
    against `Dispatch`, a function from the pending input bytes to the bytes
    consumed, the reply sent and the new state. A whole run is proved
    against `Run`.
- **Host (`host.dfy`).** The GUI script host/test.py:
  - `lfsr_next` and the flash image it generates;
  - `sendint`, with `int(s, 16)` as the parser;
  - the request bytes of every check;
  - the reply decoders `ReadXadc`, `FlashReadId`, `FlashRead`, `CheckDio`,
    `CheckMouse` and `CheckBram`;
  - the echo payload and its comparison;
  - `StartDio`;
  - the `run_test` sequence: stop-button polls, tool runs, opening the port,
    then a polling loop that issues the enabled checks. The trace of
    actions is the observable. A reply that `int(…, 16)` rejects raises
    ValueError, which nothing catches, so the run ends there.

  host/immunity.py repeats `lfsr_next`, the image generator, `sendint`,
  the checks and `StartDio` without the GUI callbacks, so the Host members
  model both scripts there. Its `write_qspi_binfile` and `program_device`
  differ: they ignore Vivado's exit code and a missing script, and return
  nothing.
- **Immunity (`immunity.dfy`).** immunity.py's own `__main__` sequence. It
  uses a hard-wired divider and mode, goes on after tool failures and loops
  over all seven checks until a reply fails to parse.
- **Protocol (`protocol.dfy`).** Host and firmware side by side:
  - the two LFSRs are the same function;
  - the image the host writes passes the firmware's validation;
  - each request the host builds is consumed whole by `Dispatch`;
  - the reply `Dispatch` sends parses, with the host's decoder, to the value
    the board produced.
- **Bits (`bits.dfy`).** Shared arithmetic models of `&`, `|`, `^`, `<<`
  and `>>` on non-negative integers, and the 32-bit wrap of C's `uint32_t`.

Where C or Python arithmetic could wrap or mask, the model writes it out:
- `Shl32` and `Add32` take the result modulo 2^32;
- `MaskInt` is Python's `&` on a possibly negative `int`;
- `LfsrNext` on the host masks with `0xffffffff`.

## Model

| member | source | states |
|---|---|---|
| Flash.Status.Code | sw/src/app_component/src/flash.c:276-279 | XST_SUCCESS is 0 and XST_FAILURE is 1; the code is 0 exactly for success |
| Flash.PickBit | sw/src/app_component/src/flash.c:221-223 | `pickbit(v, bit)` is bit `bit` of v, hence 0 or 1 |
| Flash.Feedback | sw/src/app_component/src/flash.c:236 | the XOR of the picked bits 31, 21, 1 and 0 is the parity of those four taps |
| Flash.StepFields | sw/src/app_component/src/flash.c:236 | after one step, bit 0 is the tap parity and the rest is the old register's low 31 bits |
| Flash.LfsrNext | sw/src/app_component/src/flash.c:234-237 | the C step (a shift left inside `uint32_t`, so bit 31 falls off, ORed with the feedback bit) equals the closed-form step `Step` |
| Flash.LfsrZeroFixedPoint | sw/src/app_component/src/flash.c:234-237 | a zero register stays zero for any number of steps |
| Flash.LfsrIterAdd | sw/src/app_component/src/flash.c:262 | k steps followed by j steps are k + j steps |
| Flash.ReverseBytes | sw/src/app_component/src/flash.c:225-232 | the byte reversal keeps the length |
| Flash.ReverseBytesAt | sw/src/app_component/src/flash.c:225-232 | byte k of the reversal is byte n-1-k of the input |
| Flash.ReverseBytesInvolution | sw/src/app_component/src/flash.c:225-232 | reversing twice restores the bytes |
| Flash.Reverse | sw/src/app_component/src/flash.c:225-232 | `reverse(buf)` swaps the first four bytes in place into reversed order and leaves the rest of the array untouched |
| Flash.QuadReadHeader | sw/src/app_component/src/flash.c:159-162 | four bytes: the command 0x6B, then the low 24 bits of the address, big-endian |
| Flash.SpiFlashRead | sw/src/app_component/src/flash.c:153-177 | the header is the command 0x6B followed by the address's low 24 bits, big-endian, and the transfer clocks ByteCount + 8 bytes |
| Flash.RowReadFitsBuffers | sw/src/app_component/src/flash.c:245-253 | row r of the validation loop addresses byte 128·r and clocks 136 bytes, the size of the read and write buffers |
| Flash.ReadIdValue | sw/src/app_component/src/flash.c:86 | `b1 \| b2<<8 \| b3<<16` is below 2^24, with b1, b2 and b3 as its three bytes, least significant first |
| Flash.ReadIdPacking | sw/src/app_component/src/flash.c:86 | the OR of the shifted bytes equals the sum b1 + 256·b2 + 65536·b3 |
| Flash.SpiFlashReadId | sw/src/app_component/src/flash.c:70-89 | success exactly when the transfer happened. On failure `*DevIdPtr` keeps its value; on success it holds the three ID bytes |
| Flash.Mismatches | sw/src/app_component/src/flash.c:268-270 | the number of differing positions among n words is at most n |
| Flash.LastSeedVisit | sw/src/app_component/src/flash.c:260 | the last position below n at which the running register equals the seed is a real visit of the seed |
| Flash.LastSeedVisitIsLast | sw/src/app_component/src/flash.c:260 | no later position below n returns to the seed |
| Flash.WordsCompared | sw/src/app_component/src/flash.c:250-255 | words are compared a whole row at a time, never more than the 32768 of the loop and never more than are available; all 32768 are compared exactly when that many are available |
| Flash.ScanWords | sw/src/app_component/src/flash.c:257-272 | the word-by-word loop state has an error count of at most the words scanned |
| Flash.ScanWordsNext | sw/src/app_component/src/flash.c:257-272 | one word more updates `first`, the register, `last` and the error count as the inner loop body does |
| Flash.ScanClosedForm | sw/src/app_component/src/flash.c:257-272 | after n words the state is the closed form: the register is the n-th iterate, the error count is the number of mismatches, `first` is the word at the last visit of the seed, `last` is the last word read |
| Flash.ValidationOfScan | sw/src/app_component/src/flash.c:239-280 | the closed-form outcome is the scan over the words compared, with success exactly for a full, error-free scan |
| Flash.CompareRow | sw/src/app_component/src/flash.c:257-272 | the inner loop over one row's 32 words advances the scan state by exactly those 32 words |
| Flash.RequestRow | sw/src/app_component/src/flash.c:251 | the row's quad read, at byte 128·r for 128 bytes, is appended to the reads of the rows before it |
| Flash.ShortFlash | sw/src/app_component/src/flash.c:250-255 | when row r is the first with fewer than 32 words left, 32·r words were compared and r + 1 rows requested |
| Flash.ValidateAgainstLfsr | sw/src/app_component/src/flash.c:239-280 | the row and word loops, with a row read that fails when fewer than 32 words are left, return exactly `ValidationOf`: status, error count, first and last value. The quad reads issued are `SpiFlashRead(128·r, 128)` for r = 0, 1, …: all 1024 rows when 32768 words are present, otherwise up to and including the first row that cannot be read |
| Flash.MismatchesZeroIff | sw/src/app_component/src/flash.c:268-270 | no mismatch among the first n words exactly when each word k equals the register after k + 1 steps |
| Flash.ValidationSucceedsIff | sw/src/app_component/src/flash.c:275-279 | validation returns success exactly when all 32768 words are present and each follows the LFSR sequence from the seed |
| Flash.ZeroSeedFirstIsLast | sw/src/app_component/src/flash.c:260-266 | with seed 0 the register never leaves the seed, so the reported first value equals the last value |
| Firmware.DioMode.Value | sw/src/app_component/src/main.c:106 | a DIO mode is a value below 4 |
| Firmware.DioSettingsWord | sw/src/app_component/src/main.c:110 | `(mode<<16)\|(phase<<8)\|divisor` is below 2^18 and its three fields are the mode, the phase and the divisor |
| Firmware.DioCheckTest | sw/src/app_component/src/main.c:72-104 | success exactly when the status-valid bit 3 is set, and then DIO status bit 16 and bit 17 are clear and the low 16 bits are 0 |
| Firmware.DioStartTest | sw/src/app_component/src/main.c:106-124 | success exactly when the settings-ready bit 2 is set. Only then is the settings word written |
| Firmware.GetErr | sw/src/app_component/src/main.c:130-135 | `geterr` is bit 24 |
| Firmware.GetNotConnected | sw/src/app_component/src/main.c:128-136 | `getnotconnected` is bit 25 |
| Firmware.GetIsNew | sw/src/app_component/src/main.c:126-137 | `getisnew` is bit 26 |
| Firmware.GetXPos | sw/src/app_component/src/main.c:132-138 | `getxpos` is the field in bits 12-23 |
| Firmware.GetYPos | sw/src/app_component/src/main.c:134-139 | `getypos` is the field in bits 0-11 |
| Firmware.PositionFieldsCover | sw/src/app_component/src/main.c:132-139 | the two position fields together are the low 24 bits of the register |
| Firmware.DigitValue | sw/src/app_component/src/main.c:263-269 | the nibble added for one character is below 16 |
| Firmware.HexValue | sw/src/app_component/src/main.c:261-270 | the value accumulated over n characters is below 16^n |
| Firmware.HexEncoding | sw/src/app_component/src/main.c:273-282 | `inttohex` writes exactly n characters |
| Firmware.HexEncodingIsLowerHex | sw/src/app_component/src/main.c:275-279 | every character written is one of 0-9, a-f |
| Firmware.HexEncodingAt | sw/src/app_component/src/main.c:274-280 | character k is nibble n-1-k of the value: most significant first |
| Firmware.DigitValueOfHexChar | sw/src/app_component/src/main.c:263-266 | each digit `inttohex` writes decodes to its own nibble |
| Firmware.UpperCaseDigits | sw/src/app_component/src/main.c:267-268 | 'F' decodes to 15 and 'A'..'E' decode to 0, because the upper-case range test is 'F'..'F' |
| Firmware.HexRoundTrip | sw/src/app_component/src/main.c:257-282 | decoding the n characters `inttohex` writes for v yields v mod 16^n |
| Firmware.HexToInt | sw/src/app_component/src/main.c:257-271 | for n = 0 or n > 8 `*i` is unchanged; for 1 <= n <= 8 it is the value of the first n characters |
| Firmware.NoWrap | sw/src/app_component/src/main.c:262-268 | with at most seven nibbles read, the `uint32_t` shift and add do not wrap |
| Firmware.NibbleChar | sw/src/app_component/src/main.c:275-279 | the character written for `i & 0xf` is the hex digit of the low nibble |
| Firmware.IntToHex | sw/src/app_component/src/main.c:273-282 | `inttohex(i, a + at, n)` writes the n-digit encoding of i at a[at..at+n] and changes no other index |
| Firmware.WriteReply | sw/src/app_component/src/main.c:321-327 | `'w'` is complete with 11 bytes; it consumes them, sends nothing, and changes only `addr`, `data` and the register writes, appending the store of `data` at `addr` |
| Firmware.ReadReply | sw/src/app_component/src/main.c:328-334 | `'r'` is complete with 3 bytes; it answers this session's next read of the register in 8 digits and changes only `addr`, `data` and the read count |
| Firmware.EchoReply | sw/src/app_component/src/main.c:335-339 | `'e'` is complete once the count and that many payload bytes have arrived; the payload comes back unchanged and `data` becomes its length |
| Firmware.QuadReadReply | sw/src/app_component/src/main.c:340-353 | `'q'` is complete with 9 bytes; it validates the session's next flash read, answers 25 characters, `pass` is 0 or 1, and the flash error GPIO pulses exactly when `pass` is 0 |
| Firmware.FlashIdReply | sw/src/app_component/src/main.c:354-358 | `'f'` consumes 1 byte, runs the session's next read-ID transfer and answers `device_id` in 6 digits; a failed transfer leaves `device_id` as it was, so the stale ID is sent |
| Firmware.XadcReply | sw/src/app_component/src/main.c:359-366 | `'x'` consumes 1 byte, takes the session's next XADC read, changes no local, and answers 16 characters, sample i of that read in characters 4i to 4i + 3 |
| Firmware.QuadReadReplyIs | sw/src/app_component/src/main.c:340-353 | `'q'` consumes 9 bytes, answers the validation outcome and stores it |
| Firmware.Dispatch | sw/src/app_component/src/main.c:317-370 | a complete command consumes at least one byte and no more than were sent |
| Firmware.Run | sw/src/app_component/src/main.c:317-371 | a run of the loop never consumes more than its input |
| Firmware.RunFor | sw/src/app_component/src/main.c:317-371 | the first k commands never consume more than the input |
| Firmware.RunStop | sw/src/app_component/src/main.c:318 | at an incomplete command the run stops with nothing consumed or sent |
| Firmware.RunAfter | sw/src/app_component/src/main.c:317-371 | a complete first command is followed by the run over the remaining bytes |
| Firmware.RunForThen | sw/src/app_component/src/main.c:317-371 | after k commands, the whole run is those k followed by the run over what is left |
| Firmware.RunForNext | sw/src/app_component/src/main.c:317-371 | one more complete command extends the session by its reply |
| Firmware.RunForStop | sw/src/app_component/src/main.c:317-371 | a run that reaches an incomplete command after k commands is over |
| Firmware.Dispatcher | sw/src/app_component/src/main.c:320-370 | the firmware's step agrees with `Dispatch` and always advances |
| Firmware.RunCommands | sw/src/app_component/src/main.c:284-372 | a session of `ProcessCommands` consumes no more than its input |
| Firmware.CommandLoop.constructor | sw/src/app_component/src/main.c:311-315 | the locals start from the given state and the buffer has 256 bytes |
| Firmware.CommandLoop.Receive | sw/src/app_component/src/main.c:224-231 | the next `count` input bytes land at the start of the buffer |
| Firmware.CommandLoop.SendHex | sw/src/app_component/src/main.c:332-333 | `inttohex` then `send` emits the n-digit encoding |
| Firmware.CommandLoop.Write | sw/src/app_component/src/main.c:321-327 | `'w'` consumes 1+2+8 bytes, sends nothing and records the store of the decoded word at the decoded offset |
| Firmware.CommandLoop.Read | sw/src/app_component/src/main.c:328-334 | `'r'` consumes 1+2 bytes and answers in 8 digits the value this read of the register returns |
| Firmware.CommandLoop.Echo | sw/src/app_component/src/main.c:335-339 | `'e'` consumes 1+2+nn bytes and sends the nn payload bytes back |
| Firmware.CommandLoop.SendValidation | sw/src/app_component/src/main.c:345-352 | the four answers to `'q'` are 1+8+8+8 digits: pass, error count, first, last |
| Firmware.CommandLoop.StoreValidation | sw/src/app_component/src/main.c:342-344 | the locals take the validation outputs, and the flash error GPIO pulses when `pass` is 0 |
| Firmware.CommandLoop.QuadRead | sw/src/app_component/src/main.c:340-353 | `'q'` as `QuadReadReply` |
| Firmware.StaleFirstLast | sw/src/app_component/src/flash.c:250-255 | a `'q'` whose first row read fails answers XST_FAILURE, no errors, and the `first` and `last` words the previous `'q'` found |
| Firmware.UnreadFirstRow | sw/src/app_component/src/flash.c:250-255 | a validation that cannot read its first row returns XST_FAILURE with 0 errors and the pointers untouched |
| Firmware.StaleDeviceId | sw/src/app_component/src/flash.c:70-89 | an `'f'` whose transfer fails after one that succeeded answers the ID of the earlier success again |
| Firmware.TwoXadcReads | sw/src/app_component/src/main.c:359-366 | two `'x'` commands answer the samples of two separate XADC reads, 32 characters in all |
| Firmware.CommandLoop.FlashId | sw/src/app_component/src/main.c:354-358 | `'f'` consumes 1 byte, runs the next read-ID transfer, updates `device_id` and answers it in 6 digits |
| Firmware.CommandLoop.Xadc | sw/src/app_component/src/main.c:359-366 | `'x'` consumes 1 byte, takes the next XADC read and answers its four samples in 4 digits each, 16 bytes in all |
| Firmware.CommandLoop.Step | sw/src/app_component/src/main.c:318-370 | one pass of the loop is `Dispatch`: the same bytes consumed and sent and the same new state. Nothing changes when the command is incomplete |
| Firmware.CommandLoop.StepAs | sw/src/app_component/src/main.c:318-370 | `Step`, stated through any function equal to `Dispatch` |
| Firmware.CommandLoop.Loop | sw/src/app_component/src/main.c:317-371 | the `while (1)` loop produces exactly the session `Run` describes |
| Firmware.CommandLoop.ProcessCommands | sw/src/app_component/src/main.c:284-372 | `ProcessCommands` produces exactly the session `RunCommands` describes |
| Host.PickBit | host/test.py:14 | `pickbit(x, i)` is bit i of x, 0 or 1 |
| Host.Taps | host/test.py:15 | the XOR of the four taps is a single bit |
| Host.LfsrNext | host/test.py:13-15 | `lfsr_next` is always below 2^32 |
| Host.LfsrNextClosedForm | host/test.py:13-15 | `lfsr_next(s)` equals (2·s + tap parity) mod 2^32 |
| Host.OrbitOfFixedPoint | host/test.py:23-24 | iterating a step from one of its fixed points stays there |
| Host.ZeroSeedStaysZero | host/test.py:13-15 | `lfsr_next(0) == 0`, so a zero seed gives an all-zero image |
| Host.OrbitPrefix | host/test.py:23-25 | n rounds write n words |
| Host.GenerateImage | host/test.py:17-25 | the image has 1024·128 words and word k is the register after k + 1 steps; the seed alone determines it |
| Host.HexDigits | host/test.py:49 | `hex(n)[2:]` is at least one lower-case digit, and there is no leading zero beyond the first digit |
| Host.ZFill | host/test.py:49 | `zfill(w)` pads with '0' on the left up to w and never truncates |
| Host.SendIntWidth | host/test.py:48-49 | `sendint` writes exactly w digits when n < 16^w, more than w otherwise, and only 0-9, a-f |
| Host.DigitOf | host/test.py:95 | `int(..., 16)` gives a digit of either case a value below 16, the same for both cases |
| Host.DigitsValue | host/test.py:95 | the value of n digits is below 16^n |
| Host.ParseHex | host/test.py:95 | a parsed value of n characters is below 16^n |
| Host.HexDigitsValue | host/test.py:49 | `hex(n)[2:]` parses back to n |
| Host.LeadingZerosValue | host/test.py:49 | the '0's `zfill` adds do not change the value |
| Host.SendIntRoundTrip | host/test.py:48-49 | `int(sendint(n, w), 16) == n` for every width |
| Host.ReadRequest | host/test.py:133-135 | `'r'` and the offset in digits that read back as the offset; 3 bytes exactly when the offset is below 0x100 |
| Host.WriteRequest | host/test.py:159-161 | `'w'`, then for an offset below 0x100 and a 32-bit value two digits that read back as the offset and eight that read back as the value, 11 bytes in all |
| Host.QuadReadRequest | host/test.py:104-105 | `'q'` and digits that read back as the seed; 9 bytes exactly for a 32-bit seed |
| Host.EchoRequest | host/test.py:78-83 | `'e'`, two digits that read back as 100, then the payload |
| Host.Request | host/test.py:54-199 | each check's request starts with the byte of the firmware command it asks for |
| Host.StartDioRequest | host/test.py:156-162 | 14 bytes: the write of the settings word to 0x0c, then `CheckDio`'s read of 0x10, each field reading back as its value |
| Host.TestBit | host/test.py:130-131 | `testbit(n, b)` is true exactly when bit b is 1 |
| Host.XadcCode | host/test.py:57-58 | a four-character sample parses exactly when all four are hex digits; `// 16` leaves a 12-bit code |
| Host.ReadXadc | host/test.py:54-75 | the 16 bytes parse exactly when all are hex digits, into four 12-bit codes |
| Host.FlashReadId | host/test.py:93-101 | the reply raises exactly when `int(…, 16)` rejects it, and the Macronix part is reported exactly when it parses to 0x1620c2 |
| Host.FlashRead | host/test.py:103-115 | 1+8+8+8 characters; the reply parses exactly when all 25 are hex digits, the flash passes exactly when the first parses to 0, and the three counts are below 2^32 |
| Host.DioReportOf | host/test.py:133-154 | running exactly when bit 16 is clear, a bad configuration exactly when bit 17 is set, and the error mask is the low 16 bits |
| Host.CheckDio | host/test.py:133-154 | the reply raises exactly when it does not parse; otherwise the report is `DioReportOf` of the parsed word |
| Host.MouseReportOf | host/test.py:164-187 | stale exactly when bit 26 is clear, with no other bit looked at. Otherwise bits 25 and 24 give the two errors, Y is bits 12-23 and X is bits 0-11 |
| Host.PositionFields | host/test.py:185 | `(s>>12)&0xfff` and `s&0xfff` are the two 12-bit fields |
| Host.CheckMouse | host/test.py:164-187 | the reply raises exactly when it does not parse; otherwise the report is `MouseReportOf` of the parsed word |
| Host.BramOutcomeOf | host/test.py:189-211 | incomplete exactly when bit 1 is clear; passed exactly when bits 1 and 0 are both set |
| Host.CheckBram | host/test.py:189-211 | the reply raises exactly when it does not parse; otherwise the outcome is `BramOutcomeOf` of the parsed word |
| Host.Utf8 | host/test.py:81 | one to four bytes, and one byte exactly below 0x80 |
| Host.EncodeUtf8 | host/test.py:81 | the encoding is at least as long as the values |
| Host.AsciiEncodesAsItself | host/test.py:80-82 | values below 128 encode to themselves, one byte each |
| Host.NonAsciiLengthens | host/test.py:80-83 | a single value of 0x80 or more would make the payload longer than the 100 bytes read back |
| Host.CompareEcho | host/test.py:84-91 | no mismatch exactly when the echo equals the data; otherwise the first differing index |
| Host.Phase | host/test.py:264 | `(divider+1)//2 - 1` is the largest p with 2(p+1) <= divider + 1 |
| Host.SettingsWord | host/test.py:157 | below 2^18, with mode mod 4 in bits 16-17, phase mod 256 in bits 8-15 and divider mod 256 in bits 0-7 |
| Host.DividerZeroPhase | host/test.py:264 | divider 0 gives phase -1, which goes on the wire as 0xff |
| Host.CheckOfRank | host/test.py:273-285 | the check at position k of the polling loop has rank k |
| Host.CycleUpToContents | host/test.py:273-285 | the first k lines of a pass issue exactly the enabled checks of rank below k, in increasing rank |
| Host.CycleContents | host/test.py:270-290 | a pass issues nothing but checks: exactly the enabled ones, in the order XADC, ID, verify, echo, DIO, mouse, BRAM |
| Host.StopButton.constructor | host/test.py:241 | the stop flag starts with no polls |
| Host.StopButton.Done | host/test.py:241 | `done_callback()` answers True from poll number `pressedAfter` on |
| Host.RunTrace | host/test.py:241-290 | the run when every reply parses starts with a stop-flag poll and never raises |
| Host.FailingRank | host/test.py:273-285 | the first enabled check below rank k whose reply `int(…, 16)` rejects: every enabled check before it parses |
| Host.FailingPass | host/test.py:270-285 | the first pass in which some check raises: every earlier pass parses throughout |
| Host.FailingRankFirst | host/test.py:273-285 | a check that raises after clean checks is the one that ends its pass |
| Host.FailingPassFirst | host/test.py:270-285 | a pass that raises after clean passes is the one that ends the loop |
| Host.IssueIfEnabled | host/test.py:273-285 | one `if enable_…` line adds the check when it is enabled; it raises exactly when that check is enabled and its reply does not parse, and then the pass ends with the error |
| Host.IssueCycle | host/test.py:272-285 | the body of the loop is pass p as far as it gets, and it raises exactly when some check of the pass does |
| Host.PollUntilDone | host/test.py:270-290 | the loop polls, then runs a pass and polls again until the flag is set or a check raises |
| Host.RunTest | host/test.py:216-290 | `run_test` produces exactly `RunWith` for the tool outcomes, the stop flag and the board's replies; without an error it polls the flag until it is set |
| Host.Session | host/test.py:261-290 | the `with` block after the two tool runs: its actions complete the tool runs to `RunWith`; a `StartDio` status read that does not parse ends the run, otherwise the loop runs until the flag is set or a check raises |
| Host.CycleUpToPrefix | host/test.py:273-285 | the first k lines of a pass are a prefix of the first m, for k <= m |
| Host.PollingPrefix | host/test.py:270-290 | fewer passes are a prefix of more |
| Host.PollingCutShort | host/test.py:270-290 | a check that raises ends the loop: the error comes last, straight after a check, and what precedes it is a proper prefix of the loop without errors |
| Host.ParseErrorEndsRun | host/test.py:260-290 | the run raises exactly when both tools succeeded, the loop was entered and the `StartDio` read or some check of an observed pass does not parse; otherwise it is `RunTrace` |
| Host.ErrorIsLast | host/test.py:260-290 | in a run that raises, the error is the last action, it follows `StartDio` or a check, and what precedes it is a proper prefix of `RunTrace` |
| Host.PollingLength | host/test.py:270-290 | n passes give n·(pass + 1) + 1 actions |
| Host.PollingMembers | host/test.py:270-290 | the loop contains polls and, after one pass, exactly the enabled checks |
| Host.RunTraceIssues | host/test.py:241-266 | a check is issued exactly when both tools succeeded, it is enabled and the stop flag stayed clear for three polls. The port opens only after both tools succeeded, and programming only after the QSPI write |
| Host.ToolsFollowPolls | host/test.py:241-253 | each tool run comes straight after a stop-flag poll |
| Host.OnlyFlashId | host/test.py:270-285 | with only `enable_flash_id` ticked a pass is a single `'f'` |
| Immunity.ImmunitySettings | host/immunity.py:214-218 | divider 3 gives phase 1, and mode 2 gives settings word 0x20103, written to 0x0c before the status read |
| Immunity.PassIsFullCycle | host/immunity.py:222-238 | a pass is the GUI script's pass with every check ticked |
| Immunity.RunImmunity | host/immunity.py:197-241 | the `__main__` trace up to pass n is `ImmunityRun`: tools, port, StartDio(0x20103), then full passes until a reply fails to parse; it raises exactly when the `StartDio` read or a check of an observed pass does not parse |
| Immunity.PollForever | host/immunity.py:222-241 | the `while not done` loop observed for n passes: full passes until the first one with a reply that does not parse, which ends with that check; it raises exactly when some observed pass does |
| Immunity.ImmunityErrorEndsRun | host/immunity.py:212-238 | the script raises exactly when a reply does not parse; without an error the trace is n full passes, with `done` still False; with one, the error is last and what precedes it is a prefix of that trace |
| Immunity.NoErrorInPasses | host/immunity.py:222-238 | passes in which every reply parses contain no error |
| Immunity.TracePrefix | host/immunity.py:222-238 | the trace after fewer passes is a prefix of the trace after more |
| Immunity.CutInPass | host/immunity.py:222-238 | the checks of a pass up to any rank come before the end of every longer observation |
| Immunity.PassesLength | host/immunity.py:222-238 | n passes are 7·n checks |
| Immunity.PassesPrefix | host/immunity.py:222-238 | earlier passes are a prefix of later ones |
| Immunity.NeverStops | host/immunity.py:222-238 | every pass strictly extends the trace, by seven checks |
| Immunity.FailuresDoNotStop | host/immunity.py:39-52 | `write_qspi_binfile` and `program_device` ignore Vivado's exit code and a missing script and return nothing. So where a tool failure leaves test.py's trace without the port and the checks, immunity.py opens the port and runs every check |
| Protocol.TapsAgree | host/test.py:14-15 | the host's tap XOR equals the firmware's feedback bit |
| Protocol.LfsrAgree | sw/src/app_component/src/flash.c:234-237 | `lfsr_next` and `LfsrNext` agree on every 32-bit register |
| Protocol.IterateAgree | host/test.py:23-24 | k host steps are k firmware steps |
| Protocol.OrbitMatches | sw/src/app_component/src/flash.c:262 | any step equal to the firmware's on 32-bit registers has the same orbit |
| Protocol.ImageWordExpected | host/test.py:23-25 | image word k is the word `ValidateAgainstLfsr` expects at k |
| Protocol.ImagePassesValidation | sw/src/app_component/src/flash.c:239-280 | a flash that holds the host's image passes with 0 errors, and only 32768 of its 131072 words are compared |
| Protocol.NoMismatches | sw/src/app_component/src/flash.c:268-270 | words following the sequence give no mismatch |
| Protocol.ValidationIgnoresTail | sw/src/app_component/src/flash.c:241-250 | words past the first 32768 do not affect the outcome |
| Protocol.SameMismatches | sw/src/app_component/src/flash.c:268-270 | equal prefixes have equal error counts |
| Protocol.LowerHexValue | sw/src/app_component/src/main.c:263-266 | on lower-case digits `hextoint` and `int(..., 16)` agree |
| Protocol.SendIntDecodes | sw/src/app_component/src/main.c:257-271 | for n < 16^w, `sendint(n, w)` is w characters that `hextoint` reads as n |
| Protocol.ParseEncoding | host/test.py:95 | `int(..., 16)` reads `inttohex(v, n)` as v mod 16^n |
| Protocol.ParseFitting | host/test.py:95 | a value that fits in n digits is read back whole |
| Protocol.ParseWord | host/test.py:136 | an 8-digit reply is read back as the 32-bit word |
| Protocol.WriteFraming | sw/src/app_component/src/main.c:321-327 | the host's `'w'` request is 11 bytes that store `value` at `addr` |
| Protocol.ReadFraming | sw/src/app_component/src/main.c:328-334 | the host's `'r'` request is 3 bytes; the reply is, in 8 digits, the value this read of the register returns, and the host parses it back |
| Protocol.StartDioFraming | host/test.py:156-162 | `StartDio` stores the settings word at 0x0c, then sends `CheckDio`'s read of 0x10 |
| Protocol.BramFraming | host/test.py:189-198 | `CheckBram` stores its seed at 0x18, then reads 0x1c |
| Protocol.WriteThenRead | host/test.py:159-162 | after a write request the next command is the read request |
| Protocol.RegisterReports | host/test.py:133-211 | for any read n of the session, the host's DIO, mouse and BRAM decoders applied to the 8-digit reply give the report of the value that read returned |
| Protocol.EchoFraming | sw/src/app_component/src/main.c:335-339 | the 100-byte echo request is consumed whole and the payload comes back; 100 is the reply length the host reads |
| Protocol.DispatchSelects | sw/src/app_component/src/main.c:320-366 | the command byte selects the case of the switch |
| Protocol.QuadReadFraming | sw/src/app_component/src/main.c:340-353 | the host's `'q'` request is 9 bytes, answered with the validation of its seed |
| Protocol.QuadReadResponseParses | host/test.py:103-110 | the 25-byte answer to `'q'` parses to the pass flag, the error count, first and last |
| Protocol.FlashIdFraming | sw/src/app_component/src/main.c:354-358 | `'f'` is one byte, answered with the 6-digit ID |
| Protocol.FlashIdParses | host/test.py:93-101 | the host sees the Macronix part exactly when the ID bytes are c2, 20, 16 |
| Protocol.IdParses | host/test.py:95-96 | a 24-bit ID in 6 digits is compared as itself with 0x1620c2 |
| Protocol.MacronixBytes | sw/src/app_component/src/flash.c:86 | 0x1620c2 is the ID exactly when its bytes are c2, 20, 16, least significant first |
| Protocol.XadcFraming | sw/src/app_component/src/main.c:359-366 | `'x'` is one byte, answered with 16 bytes |
| Protocol.XadcResponse | sw/src/app_component/src/main.c:361-365 | four 4-digit samples make the 16 bytes the host reads |
| Protocol.XadcParses | host/test.py:54-75 | the host reads the four samples back as their 12-bit codes (sample / 16) |
| Protocol.SampleParses | host/test.py:57-58 | one 4-digit sample reads back as sample / 16 |
| Protocol.UnknownCommand | sw/src/app_component/src/main.c:367-369 | any other byte is consumed alone, answered with nothing and pulses the UART error GPIO |
| Protocol.DioVerdictsAgree | sw/src/app_component/src/main.c:88-101 | with a valid status, the firmware's DIO verdict is success exactly when the host reports running, a good configuration and no error bits |
| Protocol.MouseLabelsSwapped | sw/src/app_component/src/main.c:138-139 | the host's Y is the firmware's `getxpos` and its X is `getypos` |
| Protocol.SettingsAgree | sw/src/app_component/src/main.c:110 | for in-range operands the host's and the firmware's settings words are the same |

## Left out

- **Serial and UART transport.** `ser.Serial` and the `XUartLite_Recv`/`Send` partial-transfer loops of `receive`, `send` and `echo` (sw/src/app_component/src/main.c:224-255) are I/O. The port is the input byte sequence and the bytes sent. A command whose bytes have not all arrived yields None and the observed session ends there with nothing of it consumed or sent. The firmware blocks in `receive`, or, for an echo, in `echo` after sending back what has arrived.
- **Interleaving of `echo`.** The firmware sends each chunk of the payload back as soon as `XUartLite_Recv` returns it (sw/src/app_component/src/main.c:242-255). The model receives the whole payload, then sends it. The bytes sent agree once the whole payload has arrived. For an echo cut short, such as `e0a` followed only by `abc`, the firmware has already sent back `abc` and blocks, while `Firmware.EchoReply` is None and the model sends nothing for that command.
- **Vivado and the file write.** The `subprocess.call` runs are given as exit codes and a script-exists flag. The image is a sequence of words, so the byte order of `np.uint32.tobytes` is not modelled.
- **Host.GenerateImage** assumes each image word is written as 4 bytes (host/test.py:17-25, host/immunity.py:29-37). Under NumPy before 2.0, `np.uint32 << 1` promotes to a 64-bit integer, so `lfsr_next` can return an `int64` whose `tobytes` writes 8 bytes.
- **Randomness.** The QSPI seed, the BRAM seed and the echo payload from `np.random` are parameters.
- **XADC conversions.** The temperature and voltage formulas are floating point. `Xadc_ReadData` busy-waits on hardware, and xadc.c is not part of this model. The four raw samples of the n-th `'x'` of a session are given as `xadc(n)`, and the outcome of the n-th read-ID transfer as `idTransfer(n)`.
- **XSpi driver.** `SpiInitialize`, `SpiFlashGetStatus`, `SpiFlashWaitForFlashReady`, the write enable/disable calls and `SpiFlashQuadEnable` are foreign calls and polling. `ValidateAgainstLfsr` ignores the result of `SpiFlashQuadEnable`, so the model leaves it out. The words the n-th validation of a session reads are given as `flash(n)`, and a row read fails exactly when fewer than 32 of those words remain, so a transfer or ready error is a shorter `flash(n)`; different validations of one session may fail differently.
- **Register polling and GPIO setup.** `BramTest`, `Ps2Read`, `InitializeErrGpio` and the GPIO writes (sw/src/app_component/src/main.c:141-222) spin on or drive hardware. A GPIO pulse is a counter.
- **Logging and GUI callbacks.** host/gui.py, host/daemon.py, logging, `push_to_text_box`, `update_text_box` and the console output are display code and are not modelled. The decoders return the report the messages describe.
- **Timing.** The one-second cadence of the polling loops is wall-clock timing.
- **Host.ParseHex** models `int(s, 16)` only on what the board can send. Python also accepts a leading `+` or `-` sign, a `0x` prefix, surrounding whitespace and underscores; those are outside the model, and such a string is None here.
- **Host.RunTest** observes `run_test` through a `StopButton` whose answers switch once, from False to True, which is how the GUI's stop flag behaves.
- **Immunity.RunImmunity** observes the loop for a given number of passes; `NeverStops` states that every further pass without an error extends the trace.
- **Board registers.** The value the n-th register read of a session returns at an offset is `readReg(n, offset)`, a given function. The hardware behind it is not modelled: that the DIO error bits clear on read, or that the BRAM status follows the seed written at 0x18.
- **Firmware.DioStartTest** models the readiness test and the settings write. The read of the DIO status for the `xil_printf` (sw/src/app_component/src/main.c:117) and the closing `DioCheckTest()` call (sw/src/app_component/src/main.c:121) are left out: both only print, and their results are not returned. Any effect a read has on the hardware is outside the model, as the Board registers line says. `DioStartTest` is not called from `main` (sw/src/app_component/src/main.c:192-194).
- **Reply lengths.** `port.read(n)` has no timeout, so each read returns exactly n bytes; the replies are given with those lengths. A board that never answers would block the host, which is not modelled.
- **Protocol.** The framing lemmas are stated one command at a time. A whole host session through `Firmware.Run` follows from them with `Firmware.RunAfter`, but it is not stated as a single lemma.
- **Firmware C integer types.** `addr`, `data`, `first` and `last` are `int32_t` in `ProcessCommands`. The model holds them as 32-bit unsigned words: the firmware only moves them between `uint32_t` values and `inttohex`.
- **Firmware.CommandLoop.Write** records the store `*(TOP_BASEADDR + addr) = data` as a register write. What the hardware then does with that write is outside the model.

Where the description of the system and the code differ, the model follows the code:
- `'q'` pulses the flash error GPIO when `pass` is 0, which is XST_SUCCESS (sw/src/app_component/src/main.c:344).
- `hextoint`'s upper-case test covers only `'F'`.
- host/immunity.py continues after failed tool runs.
- A reply that is not hex raises ValueError in `int(…, 16)`; neither script catches it, so the run ends there.
- `StartDio` ends with a `CheckDio` read of the status register.
