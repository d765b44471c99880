/**
 * The MicroBlaze firmware's command side (sw/src/app_component/src/main.c):
 * the register map and status bits of the test hardware, the DIO settings
 * word and status classification, the PS/2 field macros, the ASCII-hex codec
 * `hextoint`/`inttohex`, and the command loop `ProcessCommands`.
 *
 * The hardware is an environment: the n-th register read at an offset returns
 * `readReg(n, offset)`, so a register may change between reads or clear when
 * read; register writes are recorded in order, and the flash, the read-ID
 * transfer and the XADC samples are given values.
 */
module Firmware {
  import opened Bits
  import opened Flash

  // ---------------------------------------------------------------------
  // Register map of the test hardware (byte offsets from TOP_BASEADDR)
  // ---------------------------------------------------------------------

  const STATUS_ADDR: nat := 0
  const XADC_SET_CHAN_ADDR: nat := 4
  const XADC_DATA_ADDR: nat := 8
  const DIO_SETTINGS_ADDR: nat := 12
  const DIO_STATUS_ADDR: nat := 16
  const PS2_POS_ADDR: nat := 20
  const BRAM_SEED_ADDR: nat := 24
  const BRAM_STATUS_ADDR: nat := 28

  /** Bits of the status register that DioCheckTest and DioStartTest test. */
  const DIO_STATUS_TVALID_BIT: nat := 3      // mask 0x8
  const DIO_SETTINGS_TREADY_BIT: nat := 2    // mask 0x4

  /** DIO status word: bit 16 "not running", bit 17 "bad phase/divisor",
      bits 0..15 an error mask. */
  const DIO_NOT_RUNNING_BIT: nat := 16
  const DIO_BAD_CONFIG_BIT: nat := 17

  // ---------------------------------------------------------------------
  // DIO controller
  // ---------------------------------------------------------------------

  datatype DioMode = Off | ImmunityTopToBottom | ImmunityPortPairs | Emissions
  {
    function Value(): (v: nat)
      ensures v < 4
    {
      match this
      case Off => 0
      case ImmunityTopToBottom => 1
      case ImmunityPortPairs => 2
      case Emissions => 3
    }
  }

  /** `(mode << 16) | (phase << 8) | divisor`: three disjoint fields. */
  function DioSettingsWord(mode: DioMode, phase: byte, divisor: byte): (w: u32)
    ensures w < 0x4_0000
    ensures w / 0x1_0000 == mode.Value() && (w / 0x100) % 0x100 == phase && w % 0x100 == divisor
  {
    var m, p, d := mode.Value(), phase as nat, divisor as nat;
    PackThreeFields(m, p, d);
    ThreeFields(m, p, d);
    Or(Or(Shl(m, 16), Shl(p, 8)), d)
  }

  /** `DioCheckTest`: XST_FAILURE when the status-valid bit is clear (the DIO
      status register is then not read), or when the DIO status reports "not
      running", a bad phase/divisor, or any bit of its low 16-bit error mask. */
  function DioCheckTest(status: u32, dioStatus: u32): (r: Status)
    ensures r == Success <==>
      Bit(status, DIO_STATUS_TVALID_BIT) == 1 && Bit(dioStatus, DIO_NOT_RUNNING_BIT) == 0 &&
      Bit(dioStatus, DIO_BAD_CONFIG_BIT) == 0 && dioStatus % 0x1_0000 == 0
  {
    Pow2Constants();
    AndSingleBit(status, 3);
    AndSingleBit(dioStatus, 16);
    AndSingleBit(dioStatus, 17);
    AndLowMask(dioStatus, 16);
    if And(status, 0x8) == 0 then Failure
    else
      var notRunning := And(dioStatus, 0x1_0000) != 0;
      var badConfig := And(dioStatus, 0x2_0000) != 0;
      var errorMask := And(dioStatus, 0xFFFF) != 0;
      if notRunning || badConfig || errorMask then Failure else Success
  }

  /** What DioStartTest does: its return code, and the settings word it writes
      to DIO_SETTINGS_ADDR when the settings register is ready. */
  datatype DioStart = DioStart(code: Status, settingsWrite: Option<u32>)

  function DioStartTest(mode: DioMode, phase: byte, divisor: byte, status: u32): (r: DioStart)
    ensures r.code == Success <==> Bit(status, DIO_SETTINGS_TREADY_BIT) == 1
    ensures r.code == Success ==> r.settingsWrite == Some(DioSettingsWord(mode, phase, divisor))
    ensures r.code == Failure ==> r.settingsWrite.None?
  {
    Pow2Constants();
    AndSingleBit(status, 2);
    if And(status, 0x4) == 0 then DioStart(Failure, None)
    else DioStart(Success, Some(DioSettingsWord(mode, phase, divisor)))
  }

  // ---------------------------------------------------------------------
  // PS/2 position register fields
  // ---------------------------------------------------------------------

  const MOUSE_ERROR_BIT: nat := 24
  const NOT_CONNECTED_BIT: nat := 25
  const NEW_DATA_BIT: nat := 26
  const MOUSE_X_POS_BIT: nat := 12

  /** `geterr(raw)`: `(raw & (1 << 24)) >> 24`. */
  function GetErr(raw: u32): (r: nat)
    ensures r == Bit(raw, MOUSE_ERROR_BIT)
  {
    MaskedBit(raw, 24);
    Shr(And(raw, Shl(1, 24)), 24)
  }

  /** `getnotconnected(raw)`: `(raw & (1 << 25)) >> 25`. */
  function GetNotConnected(raw: u32): (r: nat)
    ensures r == Bit(raw, NOT_CONNECTED_BIT)
  {
    MaskedBit(raw, 25);
    Shr(And(raw, Shl(1, 25)), 25)
  }

  /** `getisnew(raw)`: `(raw & (1 << 26)) >> 26`. */
  function GetIsNew(raw: u32): (r: nat)
    ensures r == Bit(raw, NEW_DATA_BIT)
  {
    MaskedBit(raw, 26);
    Shr(And(raw, Shl(1, 26)), 26)
  }

  /** `getxpos(raw)`: `(raw & (0xfff << 12)) >> 12`, the field in bits 12..23. */
  function GetXPos(raw: u32): (r: nat)
    ensures r == (raw / 0x1000) % 0x1000
  {
    Pow2Constants();
    MaskedField(raw, 12, 12);
    Shr(And(raw, Shl(0xfff, 12)), 12)
  }

  /** `getypos(raw)`: `raw & 0xfff`, the field in bits 0..11. */
  function GetYPos(raw: u32): (r: nat)
    ensures r == raw % 0x1000
  {
    Pow2Constants();
    AndLowMask(raw, 12);
    And(raw, 0xfff)
  }

  /** The two position fields together are the low 24 bits of the register. */
  lemma PositionFieldsCover(raw: u32)
    ensures GetXPos(raw) * 0x1000 + GetYPos(raw) == raw % 0x100_0000
  {
    var q, y := raw / 0x1000, raw % 0x1000;
    var h, x := q / 0x1000, q % 0x1000;
    assert raw == q * 0x1000 + y;
    assert q * 0x1000 == h * 0x100_0000 + x * 0x1000;
    DivModUnique(raw, 0x100_0000, h, x * 0x1000 + y);
    assert GetXPos(raw) == x && GetYPos(raw) == y;
  }

  // ---------------------------------------------------------------------
  // ASCII hexadecimal codec
  // ---------------------------------------------------------------------

  /** The nibble `hextoint` adds for one character. Its upper-case test is
      the range 'F'..'F', so 'A'..'E' and every non-hex character add 0. */
  function DigitValue(c: byte): (d: nat)
    ensures d < 16
  {
    if CHAR_0 <= c <= CHAR_9 then c - CHAR_0
    else if CHAR_A <= c <= CHAR_F then c - CHAR_A + 10
    else if CHAR_UPPER_F <= c <= CHAR_UPPER_F then c - CHAR_UPPER_A + 10
    else 0
  }

  /** The value `hextoint` accumulates over the characters `s`, most
      significant first. */
  function HexValue(s: seq<byte>): (v: nat)
    ensures v < Pow16(|s|)
  {
    if s == [] then 0 else HexValue(s[..|s| - 1]) * 16 + DigitValue(s[|s| - 1])
  }

  /** The n characters `inttohex` writes for v: the low n nibbles of v as
      lower-case digits, most significant first. */
  function HexEncoding(v: nat, n: nat): (s: seq<byte>)
    ensures |s| == n
  {
    if n == 0 then [] else HexEncoding(v / 16, n - 1) + [HexChar(v % 16)]
  }

  /** `inttohex` only ever produces the digits 0-9 and a-f. */
  lemma {:induction false} HexEncodingIsLowerHex(v: nat, n: nat)
    ensures forall k :: 0 <= k < n ==> IsLowerHexDigit(HexEncoding(v, n)[k])
  {
    if n > 0 {
      HexEncodingIsLowerHex(v / 16, n - 1);
      assert HexEncoding(v, n) == HexEncoding(v / 16, n - 1) + [HexChar(v % 16)];
    }
  }

  lemma DigitValueOfHexChar(d: nat)
    requires d < 16
    ensures DigitValue(HexChar(d)) == d
  {
  }

  /** The decoder accepts the lower-case digits and 'F'; 'A'..'E' decode to 0. */
  lemma UpperCaseDigits()
    ensures DigitValue(CHAR_UPPER_F) == 15
    ensures forall c: byte :: CHAR_UPPER_A <= c < CHAR_UPPER_F ==> DigitValue(c) == 0
  {
  }

  /** Appending a character shifts the value up by one nibble. */
  lemma HexValueAppend(s: seq<byte>, c: byte)
    ensures HexValue(s + [c]) == HexValue(s) * 16 + DigitValue(c)
  {
    assert (s + [c])[..|s|] == s;
  }

  /** Character k of the encoding is nibble n-1-k of v. */
  lemma {:induction false} HexEncodingAt(v: nat, n: nat, k: nat)
    requires k < n
    ensures HexEncoding(v, n)[k] == HexChar((v / Pow16(n - 1 - k)) % 16)
  {
    if k < n - 1 {
      HexEncodingAt(v / 16, n - 1, k);
      DivDiv(v, 16, Pow16(n - 2 - k));
    }
  }

  /** `v % 16^n` splits into its low nibble and the rest. */
  lemma ModPow16Split(v: nat, n: nat)
    requires n >= 1
    ensures (v / 16) % Pow16(n - 1) * 16 + v % 16 == v % Pow16(n)
  {
    var p := Pow16(n - 1);
    var q := (v / 16) / p;
    var r := (v / 16) % p;
    assert v / 16 == q * p + r;
    assert v == q * (16 * p) + (r * 16 + v % 16);
    assert r * 16 + v % 16 < 16 * p by {
      assert r <= p - 1;
    }
    DivModUnique(v, 16 * p, q, r * 16 + v % 16);
  }

  /** Round trip: decoding the n characters `inttohex` writes yields v modulo 16^n. */
  lemma {:induction false} HexRoundTrip(v: nat, n: nat)
    ensures HexValue(HexEncoding(v, n)) == v % Pow16(n)
  {
    if n == 0 {
      assert v % 1 == 0;
    } else {
      HexRoundTrip(v / 16, n - 1);
      HexValueAppend(HexEncoding(v / 16, n - 1), HexChar(v % 16));
      DigitValueOfHexChar(v % 16);
      ModPow16Split(v, n);
    }
  }

  /** `hextoint(i, a, n)`: for 1 <= n <= 8, the value of the first n
      characters; otherwise `*i` is left as it was. The loop's `uint32_t`
      shift and addition never wrap, because at most 8 nibbles are read. */
  method HexToInt(i: u32, a: array<byte>, n: byte) returns (r: u32)
    requires n <= 8 ==> n as int <= a.Length
    ensures n == 0 || n > 8 ==> r == i
    ensures 1 <= n <= 8 ==> r == HexValue(a[..n])
  {
    if n > 8 {
      return i;
    }
    if n <= 0 {
      return i;
    }
    r := 0;
    var c := 0;
    while c < n
      invariant 0 <= c <= n
      invariant r == HexValue(a[..c])
    {
      var ch := a[c];
      var d := 0;
      ghost var before := r;
      NoWrap(r, c);
      r := Shl32(r, 4);
      if ch >= CHAR_0 && ch <= CHAR_9 {
        d := ch - CHAR_0;
      } else if ch >= CHAR_A && ch <= CHAR_F {
        d := ch - CHAR_A + 10;
      } else if ch >= CHAR_UPPER_F && ch <= CHAR_UPPER_F {
        d := ch - CHAR_UPPER_A + 10;
      }
      assert d == DigitValue(ch);
      r := Add32(r, d);
      assert r == before * 16 + DigitValue(ch);
      assert a[..c + 1] == a[..c] + [ch];
      HexValueAppend(a[..c], ch);
      c := c + 1;
    }
  }

  /** Shifting in one more nibble after at most seven stays inside `uint32_t`. */
  lemma NoWrap(r: nat, c: nat)
    requires c < 8 && r < Pow16(c)
    ensures Shl32(r, 4) == r * 16
    ensures forall d: nat :: d < 16 ==> Add32(r * 16, d) == r * 16 + d
  {
    Pow16Monotone(c, 7);
    Pow2Constants();
    assert Pow16(7) == 0x1000_0000;
    DivModUnique(r * 16, U32_LIMIT, 0, r * 16);
    forall d: nat | d < 16
      ensures Add32(r * 16, d) == r * 16 + d
    {
      DivModUnique(r * 16 + d, U32_LIMIT, 0, r * 16 + d);
    }
  }

  /** The hex digit of `i` for the nibble `e` places from the right. */
  function Digit(i: nat, e: nat): byte
  {
    HexChar((i / Pow16(e)) % 16)
  }

  /** The character `inttohex` writes for the low nibble of `v`. */
  method NibbleChar(v: nat) returns (c: byte)
    ensures c == HexChar(v % 16)
  {
    Pow2Constants();
    AndLowMask(v, 4);
    var d := And(v, 0xf);
    if d >= 0 && d <= 9 {
      c := d + CHAR_0;
    } else {
      c := d - 10 + CHAR_A;
    }
  }

  /** Dropping one more nibble. */
  lemma NextNibble(v: nat, i: nat, e: nat)
    requires v == i / Pow16(e)
    ensures Shr(v, 4) == i / Pow16(e + 1)
  {
    assert Pow2(4) == 16;
    DivDiv(i, Pow16(e), 16);
  }

  /** `inttohex(i, a + at, n)`: writes the n characters of the encoding of i
      at a[at..at+n] and nothing else. */
  method IntToHex(i: u32, a: array<byte>, at: nat, n: byte)
    requires at + n as int <= a.Length
    modifies a
    ensures a[at..at + n as int] == HexEncoding(i, n as int)
    ensures a[..at] == old(a[..at]) && a[at + n as int..] == old(a[at + n as int..])
  {
    var m: int := n;
    var v: nat := i;
    while m > 0
      invariant 0 <= m <= n
      invariant v == i / Pow16(n as int - m)
      invariant forall j :: at + m <= j < at + n as int ==> a[j] == Digit(i, at + n as int - 1 - j)
      invariant forall j :: 0 <= j < at + m ==> a[j] == old(a[j])
      invariant forall j :: at + n as int <= j < a.Length ==> a[j] == old(a[j])
    {
      m := m - 1;
      var c := NibbleChar(v);
      a[at + m] := c;
      NextNibble(v, i, n as int - 1 - m);
      v := Shr(v, 4);
      assert v == i / Pow16(n as int - m);
    }
    DigitsWritten(i, n as int, at, old(a[..]), a[..]);
  }

  /** Digits written most significant first at `at`, everything else as
      before: the encoding, and the rest untouched. */
  lemma DigitsWritten(i: nat, n: nat, at: nat, before: seq<byte>, after: seq<byte>)
    requires |before| == |after| && at + n <= |after|
    requires forall j :: at <= j < at + n ==> after[j] == Digit(i, at + n - 1 - j)
    requires forall j :: 0 <= j < at ==> after[j] == before[j]
    requires forall j :: at + n <= j < |after| ==> after[j] == before[j]
    ensures after[at..at + n] == HexEncoding(i, n)
    ensures after[..at] == before[..at] && after[at + n..] == before[at + n..]
  {
    forall k | 0 <= k < n
      ensures after[at..at + n][k] == HexEncoding(i, n)[k]
    {
      HexEncodingAt(i, n, k);
    }
  }

  // ---------------------------------------------------------------------
  // ProcessCommands: the command protocol
  // ---------------------------------------------------------------------

  const CMD_WRITE: byte := 0x77       // 'w'
  const CMD_READ: byte := 0x72        // 'r'
  const CMD_ECHO: byte := 0x65        // 'e'
  const CMD_QUAD_READ: byte := 0x71   // 'q'
  const CMD_FLASH_ID: byte := 0x66    // 'f'
  const CMD_XADC: byte := 0x78        // 'x'

  const BUFFER_SIZE: nat := 256
  const XADC_CHANNELS: nat := 4

  /** A store `*(uint32_t*)(TOP_BASEADDR + offset) = value`. */
  datatype RegWrite = RegWrite(offset: nat, value: u32)

  /** The hardware as the command loop sees it: `readReg(n, offset)` is what
      the register at `offset` returns when it is the n-th register read of
      the session (the DIO error bits, for one, clear when read), `flash(n)`
      the words the flash delivers to the n-th validation of the session (a
      row read that fails ends the words early), `idTransfer(n)` the outcome of the n-th
      read-ID transfer of the session, and `xadc(n)` the four raw samples
      the n-th XADC read returns. */
  datatype Board = Board(readReg: (nat, nat) -> u32, flash: nat -> seq<u32>, idTransfer: nat -> Option<seq<byte>>, xadc: nat -> seq<u16>)
  {
    ghost predicate Valid()
    {
      forall n :: |xadc(n)| == XADC_CHANNELS && (idTransfer(n).Some? ==> |idTransfer(n).value| == READ_ID_BYTES)
    }
  }

  /** The locals of ProcessCommands that outlive one command, the register
      writes issued so far, the number of register reads, flash validations,
      read-ID transfers and XADC reads so far, and how often each error GPIO has been pulsed. */
  datatype LoopState = LoopState(
    addr: u32, data: u32, errorCount: u32, first: u32, last: u32, deviceId: u32, pass: byte,
    writes: seq<RegWrite>, readCount: nat, quadReads: nat, idReads: nat, xadcReads: nat, flashErrPulses: nat, uartErrPulses: nat)

  /** One command: the bytes it consumed, the bytes it sent back, the new state. */
  datatype Reply = Reply(consumed: nat, response: seq<byte>, next: LoopState)

  /** `'w' aa dddddddd`: store the decoded word at the decoded offset. The
      command waits for all 11 bytes, sends nothing, and records one store
      of `data` at `addr`, both taken from the request; nothing else changes. */
  function WriteReply(s: LoopState, input: seq<byte>): (r: Option<Reply>)
    ensures r.Some? <==> |input| >= 11
    ensures r.Some? ==> r.value.consumed == 11 && r.value.response == []
    ensures r.Some? ==> var t := r.value.next;
      t.addr < 0x100 && t.writes == s.writes + [RegWrite(t.addr, t.data)] &&
      t.(addr := s.addr, data := s.data, writes := s.writes) == s
  {
    if |input| < 11 then None
    else
      Pow16Constants();
      var addr, data := HexValue(input[1..3]), HexValue(input[3..11]);
      Some(Reply(11, [], s.(addr := addr, data := data, writes := s.writes + [RegWrite(addr, data)])))
  }

  /** `'r' aa`: answer the register at the decoded offset in 8 hex digits.
      The command waits for all 3 bytes; the answer is what this read of
      that register returned, and only `addr`, `data` and the read count
      change. */
  function ReadReply(s: LoopState, input: seq<byte>, board: Board): (r: Option<Reply>)
    ensures r.Some? <==> |input| >= 3
    ensures r.Some? ==> var t := r.value.next;
      r.value.consumed == 3 && t.addr < 0x100 && t.data == board.readReg(s.readCount, t.addr) &&
      r.value.response == HexEncoding(t.data, 8) && |r.value.response| == 8 &&
      t == s.(addr := t.addr, data := t.data, readCount := s.readCount + 1)
  {
    if |input| < 3 then None
    else
      Pow16Constants();
      var addr := HexValue(input[1..3]);
      var data := board.readReg(s.readCount, addr);
      Some(Reply(3, HexEncoding(data, 8), s.(addr := addr, data := data, readCount := s.readCount + 1)))
  }

  /** `'e' nn` followed by nn bytes: send the nn bytes back. The command
      waits for the count and then for that many bytes, and answers with
      exactly the bytes after the count; only `data` changes. */
  function EchoReply(s: LoopState, input: seq<byte>): (r: Option<Reply>)
    ensures r.Some? <==> |input| >= 3 && |input| >= 3 + HexValue(input[1..3])
    ensures r.Some? ==> r.value.consumed == 3 + |r.value.response| <= |input| && r.value.response == input[3..r.value.consumed]
    ensures r.Some? ==> |r.value.response| < 0x100 && r.value.next == s.(data := |r.value.response|)
  {
    if |input| < 3 then None
    else
      Pow16Constants();
      var count := HexValue(input[1..3]);
      if |input| < 3 + count then None
      else Some(Reply(3 + count, input[3..3 + count], s.(data := count)))
  }

  /** `'q' ssssssss`: validate the flash against the LFSR from the decoded seed
      and answer pass (1 digit), error count, first and last word (8 each).
      The flash error GPIO is pulsed when `pass` is 0, which is XST_SUCCESS. */
  function QuadReadReply(s: LoopState, input: seq<byte>, board: Board): (r: Option<Reply>)
    ensures r.Some? <==> |input| >= 9
    ensures r.Some? ==> r.value.consumed == 9 && |r.value.response| == 25
    ensures r.Some? ==> var t := r.value.next;
      t.pass <= 1 && t.flashErrPulses == s.flashErrPulses + (if t.pass == 0 then 1 else 0) &&
      t.writes == s.writes && t.readCount == s.readCount && t.deviceId == s.deviceId && t.uartErrPulses == s.uartErrPulses &&
      t.idReads == s.idReads && t.xadcReads == s.xadcReads && t.quadReads == s.quadReads + 1
  {
    if |input| < 9 then None
    else
      Pow16Constants();
      var seed := HexValue(input[1..9]);
      var v := ValidationOf(board.flash(s.quadReads), seed, s.first, s.last);
      Some(Reply(9, QuadReadResponse(v), QuadReadNext(s, seed, v)))
  }

  /** pass, error count, first and last word in 1 + 8 + 8 + 8 hex digits. */
  function QuadReadResponse(v: Validation): seq<byte>
  {
    HexEncoding(v.status.Code(), 1) + HexEncoding(v.errorCount, 8) + HexEncoding(v.first, 8) + HexEncoding(v.last, 8)
  }

  /** The locals after `'q'`: the seed, the validation outcome, one more
      validation counted, and one more flash error pulse when `pass` is 0. */
  function QuadReadNext(s: LoopState, seed: u32, v: Validation): LoopState
  {
    var pass := v.status.Code();
    s.(data := seed, errorCount := v.errorCount, first := v.first, last := v.last, pass := pass, quadReads := s.quadReads + 1,
       flashErrPulses := s.flashErrPulses + (if pass == 0 then 1 else 0))
  }

  /** QuadReadReply in terms of the validation outcome. */
  lemma QuadReadReplyIs(s: LoopState, input: seq<byte>, board: Board, v: Validation)
    requires |input| >= 9 && HexValue(input[1..9]) < U32_LIMIT
    requires v == ValidationOf(board.flash(s.quadReads), HexValue(input[1..9]), s.first, s.last)
    ensures QuadReadReply(s, input, board) == Some(Reply(9, QuadReadResponse(v), QuadReadNext(s, HexValue(input[1..9]), v)))
  {
  }

  /** `'f'`: run a fresh read-ID transfer and answer the ID in 6 hex digits.
      A failed transfer leaves `device_id` as it was, and the stale value is
      what is sent. */
  function FlashIdReply(s: LoopState, board: Board): (r: Option<Reply>)
    requires board.Valid()
    ensures r.Some? && r.value.consumed == 1 && |r.value.response| == 6
    ensures var transfer := board.idTransfer(s.idReads);
      (transfer.None? ==> r.value.next == s.(idReads := s.idReads + 1)) &&
      (transfer.Some? ==> r.value.next == s.(deviceId := ReadIdValue(transfer.value), idReads := s.idReads + 1))
    ensures r.value.response == HexEncoding(r.value.next.deviceId, 6)
  {
    var (_, id) := SpiFlashReadId(board.idTransfer(s.idReads), s.deviceId);
    Some(Reply(1, HexEncoding(id, 6), s.(deviceId := id, idReads := s.idReads + 1)))
  }

  /** `'x'`: take four fresh XADC samples and answer them in 4 hex digits
      each; no local but the read count changes. */
  function XadcReply(s: LoopState, board: Board): (r: Option<Reply>)
    requires board.Valid()
    ensures r.Some? && r.value.consumed == 1 && r.value.next == s.(xadcReads := s.xadcReads + 1) && |r.value.response| == 16
    ensures forall i :: 0 <= i < XADC_CHANNELS ==> r.value.response[4 * i..4 * i + 4] == HexEncoding(board.xadc(s.xadcReads)[i], 4)
  {
    var x := board.xadc(s.xadcReads);
    Some(Reply(1, HexEncoding(x[0], 4) + HexEncoding(x[1], 4) + HexEncoding(x[2], 4) + HexEncoding(x[3], 4), s.(xadcReads := s.xadcReads + 1)))
  }

  /** What ProcessCommands does with the bytes `input` starting at a command
      byte: None while the command's bytes have not all arrived (the firmware
      is blocked in `receive`), otherwise the reply. Any other command byte
      only pulses the UART error GPIO. */
  function Dispatch(s: LoopState, input: seq<byte>, board: Board): (r: Option<Reply>)
    requires board.Valid()
    ensures r.Some? ==> 1 <= r.value.consumed <= |input|
  {
    if |input| == 0 then None
    else
      var cmd := input[0];
      if cmd == CMD_WRITE then WriteReply(s, input)
      else if cmd == CMD_READ then ReadReply(s, input, board)
      else if cmd == CMD_ECHO then EchoReply(s, input)
      else if cmd == CMD_QUAD_READ then QuadReadReply(s, input, board)
      else if cmd == CMD_FLASH_ID then FlashIdReply(s, board)
      else if cmd == CMD_XADC then XadcReply(s, board)
      else Some(Reply(1, [], s.(uartErrPulses := s.uartErrPulses + 1)))
  }

  /** The outcome of a run of ProcessCommands over `input`: the bytes it
      consumed by complete commands, everything it sent, the final state. */
  datatype Session = Session(consumed: nat, output: seq<byte>, final: LoopState)

  /** One pass of a command loop: the reply to the complete command at the
      head of the input, None when there is none. */
  type Stepper = (LoopState, seq<byte>) -> Option<Reply>

  /** Every reply of `step` consumes at least one byte and no more than it was given. */
  ghost predicate Advances(step: Stepper)
  {
    forall s, input :: step(s, input).Some? ==> 1 <= step(s, input).value.consumed <= |input|
  }

  /** `n` bytes consumed and `out` sent, followed by the session `rest`. */
  function Then(n: nat, out: seq<byte>, rest: Session): (r: Session)
    ensures r.consumed == n + rest.consumed && r.output == out + rest.output && r.final == rest.final
  {
    Session(n + rest.consumed, out + rest.output, rest.final)
  }

  /** The loop run to the end: commands are answered one after another until
      the input no longer holds a complete one. */
  function Run(step: Stepper, s: LoopState, input: seq<byte>): (r: Session)
    requires Advances(step)
    ensures r.consumed <= |input|
    decreases |input|
  {
    match step(s, input)
    case None => Session(0, [], s)
    case Some(reply) => Then(reply.consumed, reply.response, Run(step, reply.next, input[reply.consumed..]))
  }

  /** The session after the first k commands of `input`, None when fewer than
      k complete commands are there. */
  function RunFor(step: Stepper, s: LoopState, input: seq<byte>, k: nat): (r: Option<Session>)
    requires Advances(step)
    ensures r.Some? ==> r.value.consumed <= |input|
  {
    if k == 0 then Some(Session(0, [], s))
    else
      match RunFor(step, s, input, k - 1)
      case None => None
      case Some(prev) =>
        match step(prev.final, input[prev.consumed..])
        case None => None
        case Some(reply) => Some(Session(prev.consumed + reply.consumed, prev.output + reply.response, reply.next))
  }

  /** The run stops, with nothing consumed or sent, at an incomplete command. */
  lemma RunStop(step: Stepper, s: LoopState, input: seq<byte>)
    requires Advances(step) && step(s, input).None?
    ensures Run(step, s, input) == Session(0, [], s)
  {
  }

  /** A complete first command: its reply, then the run over the rest. */
  lemma RunAfter(step: Stepper, s: LoopState, input: seq<byte>, reply: Reply)
    requires Advances(step) && step(s, input) == Some(reply)
    ensures 1 <= reply.consumed <= |input|
    ensures Run(step, s, input) == Then(reply.consumed, reply.response, Run(step, reply.next, input[reply.consumed..]))
  {
  }

  /** Nothing consumed or sent, then `rest`, is `rest`. */
  lemma ThenNothing(rest: Session)
    ensures Then(0, [], rest) == rest
  {
    assert [] + rest.output == rest.output;
  }

  /** Two steps of a run in one. */
  lemma ThenThen(c: nat, output: seq<byte>, n: nat, out: seq<byte>, rest: Session)
    ensures Then(c, output, Then(n, out, rest)) == Then(c + n, output + out, rest)
  {
    assert output + (out + rest.output) == (output + out) + rest.output;
  }

  /** One more command after the session `sess` of a run. */
  lemma ThenStep(step: Stepper, s: LoopState, input: seq<byte>, sess: Session, reply: Reply)
    requires Advances(step) && sess.consumed <= |input|
    requires Run(step, s, input) == Then(sess.consumed, sess.output, Run(step, sess.final, input[sess.consumed..]))
    requires step(sess.final, input[sess.consumed..]) == Some(reply)
    ensures sess.consumed + reply.consumed <= |input|
    ensures Run(step, s, input) ==
      Then(sess.consumed + reply.consumed, sess.output + reply.response, Run(step, reply.next, input[sess.consumed + reply.consumed..]))
  {
    RunAfter(step, sess.final, input[sess.consumed..], reply);
    ThenThen(sess.consumed, sess.output, reply.consumed, reply.response,
             Run(step, reply.next, input[sess.consumed..][reply.consumed..]));
    assert input[sess.consumed..][reply.consumed..] == input[sess.consumed + reply.consumed..];
  }

  /** Once k commands have run, the whole run is those k followed by the run
      over what is left. */
  lemma {:induction false} RunForThen(step: Stepper, s: LoopState, input: seq<byte>, k: nat, sess: Session)
    requires Advances(step) && RunFor(step, s, input, k) == Some(sess)
    ensures sess.consumed <= |input|
    ensures Run(step, s, input) == Then(sess.consumed, sess.output, Run(step, sess.final, input[sess.consumed..]))
  {
    if k == 0 {
      RunFromStart(step, s, input);
    } else {
      var prev := RunFor(step, s, input, k - 1).value;
      RunForThen(step, s, input, k - 1, prev);
      ThenStep(step, s, input, prev, step(prev.final, input[prev.consumed..]).value);
    }
  }

  /** Before any command has run, the run is the run over all of the input. */
  lemma RunFromStart(step: Stepper, s: LoopState, input: seq<byte>)
    requires Advances(step)
    ensures Run(step, s, input) == Then(0, [], Run(step, s, input[0..]))
  {
    assert input[0..] == input;
    ThenNothing(Run(step, s, input));
  }

  /** The session after one more complete command. */
  lemma RunForNext(step: Stepper, s: LoopState, input: seq<byte>, k: nat, sess: Session, reply: Reply)
    requires Advances(step) && RunFor(step, s, input, k) == Some(sess)
    requires step(sess.final, input[sess.consumed..]) == Some(reply)
    ensures RunFor(step, s, input, k + 1) == Some(Session(sess.consumed + reply.consumed, sess.output + reply.response, reply.next))
  {
  }

  /** A run that has reached an incomplete command after k commands is over. */
  lemma RunForStop(step: Stepper, s: LoopState, input: seq<byte>, k: nat, sess: Session)
    requires Advances(step) && RunFor(step, s, input, k) == Some(sess)
    requires step(sess.final, input[sess.consumed..]).None?
    ensures Run(step, s, input) == sess
  {
    RunForThen(step, s, input, k, sess);
    RunStop(step, sess.final, input[sess.consumed..]);
    assert sess.output + [] == sess.output;
  }

  /** The firmware's step: Dispatch on the given board. */
  function Dispatcher(board: Board): (step: Stepper)
    requires board.Valid()
    ensures Advances(step)
    ensures forall s, input {:trigger Dispatch(s, input, board)} :: step(s, input) == Dispatch(s, input, board)
  {
    (s, input) => Dispatch(s, input, board)
  }

  /** The outcome of ProcessCommands over `input` from state `s`. */
  function RunCommands(s: LoopState, input: seq<byte>, board: Board): (r: Session)
    requires board.Valid()
    ensures r.consumed <= |input|
  {
    Run(Dispatcher(board), s, input)
  }

  /** Two `'f'` commands, the first transfer succeeding and the second
      failing: both answers carry the ID the first transfer read. */
  lemma StaleDeviceId(s: LoopState, board: Board, transfer: seq<byte>)
    requires board.Valid() && board.idTransfer(s.idReads) == Some(transfer) && board.idTransfer(s.idReads + 1).None?
    ensures var id := HexEncoding(ReadIdValue(transfer), 6);
      RunCommands(s, [CMD_FLASH_ID, CMD_FLASH_ID], board).output == id + id
  {
    var input := [CMD_FLASH_ID, CMD_FLASH_ID];
    var step := Dispatcher(board);
    var first := FlashIdReply(s, board).value;
    RunAfter(step, s, input, first);
    var second := FlashIdReply(first.next, board).value;
    RunAfter(step, first.next, input[1..], second);
    RunStop(step, second.next, input[1..][1..]);
  }

  /** Two `'q'` commands, the second of which cannot read its first row:
      the second answers XST_FAILURE with no errors and the first and last
      words the first one found, which the locals still hold. */
  lemma StaleFirstLast(s: LoopState, board: Board, q1: seq<byte>, q2: seq<byte>, seed: u32)
    requires board.Valid() && |q1| == 9 && |q2| == 9 && q1[0] == CMD_QUAD_READ && q2[0] == CMD_QUAD_READ
    requires HexValue(q1[1..9]) == seed && |board.flash(s.quadReads + 1)| < WORDS_PER_ROW
    ensures var v := ValidationOf(board.flash(s.quadReads), seed, s.first, s.last);
      RunCommands(s, q1 + q2, board).output ==
        QuadReadResponse(v) + QuadReadResponse(Validation(Failure, 0, v.first, v.last))
  {
    var input := q1 + q2;
    var step := Dispatcher(board);
    assert input[1..9] == q1[1..9];
    var v := ValidationOf(board.flash(s.quadReads), seed, s.first, s.last);
    var t := QuadReadNext(s, seed, v);
    QuadReadReplyIs(s, input, board, v);
    RunAfter(step, s, input, Reply(9, QuadReadResponse(v), t));
    assert input[9..] == q2;
    Pow16Constants();
    var stale := Validation(Failure, 0, v.first, v.last);
    UnreadFirstRow(board.flash(t.quadReads), HexValue(q2[1..9]), t.first, t.last);
    QuadReadReplyIs(t, q2, board, stale);
    var u := QuadReadNext(t, HexValue(q2[1..9]), stale);
    RunAfter(step, t, q2, Reply(9, QuadReadResponse(stale), u));
    RunStop(step, u, q2[9..]);
  }

  /** A validation that cannot read its first row reports XST_FAILURE with
      no errors and the pointers as they were. */
  lemma UnreadFirstRow(flash: seq<u32>, seed: u32, first0: u32, last0: u32)
    requires |flash| < WORDS_PER_ROW
    ensures ValidationOf(flash, seed, first0, last0) == Validation(Failure, 0, first0, last0)
  {
  }

  /** Two `'x'` commands answer the samples of two separate XADC reads. */
  lemma TwoXadcReads(s: LoopState, board: Board)
    requires board.Valid()
    ensures var out := RunCommands(s, [CMD_XADC, CMD_XADC], board).output;
      |out| == 32 &&
      forall i :: 0 <= i < XADC_CHANNELS ==>
        out[4 * i..4 * i + 4] == HexEncoding(board.xadc(s.xadcReads)[i], 4) &&
        out[16 + 4 * i..16 + 4 * i + 4] == HexEncoding(board.xadc(s.xadcReads + 1)[i], 4)
  {
    var input := [CMD_XADC, CMD_XADC];
    var step := Dispatcher(board);
    var first := XadcReply(s, board).value;
    RunAfter(step, s, input, first);
    var second := XadcReply(first.next, board).value;
    RunAfter(step, first.next, input[1..], second);
    RunStop(step, second.next, input[1..][1..]);
    var out := first.response + second.response;
    forall i | 0 <= i < XADC_CHANNELS
      ensures out[16 + 4 * i..16 + 4 * i + 4] == second.response[4 * i..4 * i + 4]
    {
    }
  }

  /** ProcessCommands with its persistent locals as fields and its 256-byte
      `buffer`. */
  class CommandLoop {
    var addr: u32
    var data: u32
    var errorCount: u32
    var first: u32
    var last: u32
    var deviceId: u32
    var pass: byte
    var writes: seq<RegWrite>
    var readCount: nat
    var quadReads: nat
    var idReads: nat
    var xadcReads: nat
    var flashErrPulses: nat
    var uartErrPulses: nat
    const buffer: array<byte>

    function State(): LoopState
      reads this
    {
      LoopState(addr, data, errorCount, first, last, deviceId, pass, writes, readCount, quadReads, idReads, xadcReads, flashErrPulses, uartErrPulses)
    }

    predicate Valid()
      reads this
    {
      buffer.Length == BUFFER_SIZE
    }

    /** The locals start with whatever `init` holds; C leaves them uninitialised. */
    constructor (init: LoopState)
      ensures Valid() && State() == init && fresh(buffer)
    {
      addr, data, errorCount, first, last := init.addr, init.data, init.errorCount, init.first, init.last;
      deviceId, pass, writes, readCount := init.deviceId, init.pass, init.writes, init.readCount;
      quadReads, idReads, xadcReads := init.quadReads, init.idReads, init.xadcReads;
      flashErrPulses, uartErrPulses := init.flashErrPulses, init.uartErrPulses;
      buffer := new byte[BUFFER_SIZE];
    }

    /** `receive(&uart, buffer, count)`: the next `count` bytes of the input
        land at the start of the buffer. */
    method Receive(input: seq<byte>, from: nat, count: nat)
      requires Valid() && from + count <= |input| && count <= BUFFER_SIZE
      modifies buffer
      ensures buffer[..count] == input[from..from + count]
    {
      var j := 0;
      while j < count
        invariant 0 <= j <= count
        invariant buffer[..j] == input[from..from + j]
      {
        buffer[j] := input[from + j];
        j := j + 1;
        assert buffer[..j] == buffer[..j - 1] + [buffer[j - 1]];
      }
    }

    /** `send(&uart, buffer, count)`: the first `count` bytes of the buffer go out. */
    method Send(count: nat) returns (out: seq<byte>)
      requires count <= buffer.Length
      ensures out == buffer[..count]
    {
      out := buffer[..count];
    }

    /** `inttohex(v, buffer, n)` followed by `send(&uart, buffer, n)`. */
    method SendHex(v: u32, n: byte) returns (out: seq<byte>)
      requires Valid()
      modifies buffer
      ensures out == HexEncoding(v, n as int)
    {
      IntToHex(v, buffer, 0, n);
      out := Send(n as int);
      assert buffer[0..n] == buffer[..n];
    }

    method Write(input: seq<byte>)
      requires Valid() && |input| >= 11
      modifies this, buffer
      ensures Valid()
      ensures WriteReply(old(State()), input) == Some(Reply(11, [], State()))
    {
      Pow16Constants();
      Receive(input, 1, 2);
      addr := HexToInt(addr, buffer, 2);
      Receive(input, 3, 8);
      data := HexToInt(data, buffer, 8);
      writes := writes + [RegWrite(addr, data)];
    }

    method Read(input: seq<byte>, board: Board) returns (out: seq<byte>)
      requires Valid() && |input| >= 3
      modifies this, buffer
      ensures Valid()
      ensures ReadReply(old(State()), input, board) == Some(Reply(3, out, State()))
    {
      Pow16Constants();
      Receive(input, 1, 2);
      addr := HexToInt(addr, buffer, 2);
      data := board.readReg(readCount, addr);
      readCount := readCount + 1;
      out := SendHex(data, 8);
    }

    method Echo(input: seq<byte>) returns (out: seq<byte>)
      requires Valid() && |input| >= 3 && |input| >= 3 + HexValue(input[1..3])
      modifies this, buffer
      ensures Valid()
      ensures EchoReply(old(State()), input) == Some(Reply(3 + HexValue(input[1..3]), out, State()))
    {
      Pow16Constants();
      Receive(input, 1, 2);
      data := HexToInt(data, buffer, 2);
      Receive(input, 3, data);
      out := Send(data);
    }

    /** The four answers of `'q'`, each through `inttohex` and `send`. */
    method SendValidation(v: Validation) returns (out: seq<byte>)
      requires Valid()
      modifies buffer
      ensures out == QuadReadResponse(v)
    {
      var passOut := SendHex(v.status.Code(), 1);
      var countOut := SendHex(v.errorCount, 8);
      var firstOut := SendHex(v.first, 8);
      var lastOut := SendHex(v.last, 8);
      out := passOut + countOut + firstOut + lastOut;
    }

    /** The locals `'q'` assigns from the out-parameters of
        ValidateAgainstLfsr, then ToggleFlashErr when `pass` is 0. */
    method StoreValidation(seed: u32, v: Validation)
      modifies this
      ensures State() == QuadReadNext(old(State()), seed, v)
    {
      data, pass, errorCount, first, last := seed, v.status.Code(), v.errorCount, v.first, v.last;
      quadReads := quadReads + 1;
      if pass == 0 {
        flashErrPulses := flashErrPulses + 1;
      }
    }

    /** `'q' ssssssss`: decode the seed, validate the flash, answer the outcome. */
    method QuadRead(input: seq<byte>, board: Board) returns (out: seq<byte>)
      requires Valid() && |input| >= 9
      modifies this, buffer
      ensures Valid()
      ensures QuadReadReply(old(State()), input, board) == Some(Reply(9, out, State()))
    {
      ghost var s0 := State();
      Receive(input, 1, 8);
      var seed := HexToInt(data, buffer, 8);
      assert seed == HexValue(input[1..9]);
      var v, _ := ValidateAgainstLfsr(board.flash(quadReads), seed, first, last);
      StoreValidation(seed, v);
      out := SendValidation(v);
      QuadReadReplyIs(s0, input, board, v);
    }

    method FlashId(board: Board) returns (out: seq<byte>)
      requires Valid() && board.Valid()
      modifies this, buffer
      ensures Valid()
      ensures FlashIdReply(old(State()), board) == Some(Reply(1, out, State()))
    {
      var (_, id) := SpiFlashReadId(board.idTransfer(idReads), deviceId);
      deviceId, idReads := id, idReads + 1;
      out := SendHex(deviceId, 6);
    }

    method Xadc(board: Board) returns (out: seq<byte>)
      requires Valid() && board.Valid()
      modifies this, buffer
      ensures Valid()
      ensures XadcReply(old(State()), board) == Some(Reply(1, out, State()))
    {
      var x := board.xadc(xadcReads);
      IntToHex(x[0], buffer, 0, 4);
      ghost var sent := buffer[..4];
      assert sent == buffer[0..4];
      IntToHex(x[1], buffer, 4, 4);
      assert buffer[..8] == sent + buffer[4..8];
      sent := buffer[..8];
      IntToHex(x[2], buffer, 8, 4);
      assert buffer[..12] == sent + buffer[8..12];
      sent := buffer[..12];
      IntToHex(x[3], buffer, 12, 4);
      assert buffer[..16] == sent + buffer[12..16];
      out := Send(16);
      xadcReads := xadcReads + 1;
    }

    /** One pass of the `while (1)` loop: receive the command byte and run its
        case of the switch. None when the command's bytes have not all arrived. */
    method Step(input: seq<byte>, board: Board) returns (r: Option<(nat, seq<byte>)>)
      requires Valid() && board.Valid()
      modifies this, buffer
      ensures Valid()
      ensures r.None? <==> Dispatch(old(State()), input, board).None?
      ensures r.None? ==> State() == old(State())
      ensures r.Some? ==> Dispatch(old(State()), input, board) == Some(Reply(r.value.0, r.value.1, State()))
    {
      ghost var s0 := State();
      if |input| == 0 {
        r := None;
      } else {
        Receive(input, 0, 1);
        var cmd := buffer[0];
        assert cmd == input[0];
        Pow16Constants();
        if cmd == CMD_WRITE {
          if |input| < 11 {
            r := None;
          } else {
            Write(input);
            r := Some((11, []));
          }
        } else if cmd == CMD_READ {
          if |input| < 3 {
            r := None;
          } else {
            var out := Read(input, board);
            r := Some((3, out));
          }
        } else if cmd == CMD_ECHO {
          if |input| < 3 || |input| < 3 + HexValue(input[1..3]) {
            r := None;
          } else {
            var out := Echo(input);
            r := Some((3 + HexValue(input[1..3]), out));
          }
        } else if cmd == CMD_QUAD_READ {
          if |input| < 9 {
            r := None;
          } else {
            var out := QuadRead(input, board);
            r := Some((9, out));
          }
        } else if cmd == CMD_FLASH_ID {
          var out := FlashId(board);
          r := Some((1, out));
        } else if cmd == CMD_XADC {
          var out := Xadc(board);
          r := Some((1, out));
        } else {
          uartErrPulses := uartErrPulses + 1;  // ToggleUartErr
          r := Some((1, []));
        }
      }
    }

    /** ProcessCommands: run commands while the input holds complete ones. */
    method ProcessCommands(input: seq<byte>, board: Board) returns (consumed: nat, output: seq<byte>)
      requires Valid() && board.Valid()
      modifies this, buffer
      ensures Valid()
      ensures RunCommands(old(State()), input, board) == Session(consumed, output, State())
    {
      consumed, output := Loop(input, board, Dispatcher(board));
    }

    /** Step, stated through a `step` that agrees with Dispatch. */
    method StepAs(input: seq<byte>, board: Board, ghost step: Stepper) returns (r: Option<(nat, seq<byte>)>)
      requires Valid() && board.Valid()
      requires forall s, i {:trigger Dispatch(s, i, board)} :: step(s, i) == Dispatch(s, i, board)
      modifies this, buffer
      ensures Valid()
      ensures r.None? <==> step(old(State()), input).None?
      ensures r.None? ==> State() == old(State())
      ensures r.Some? ==> step(old(State()), input) == Some(Reply(r.value.0, r.value.1, State()))
    {
      r := Step(input, board);
    }

    /** The `while (1)` loop of ProcessCommands, proved for any `step` that
        agrees with Dispatch. */
    method Loop(input: seq<byte>, board: Board, ghost step: Stepper) returns (consumed: nat, output: seq<byte>)
      requires Valid() && board.Valid() && Advances(step)
      requires forall s, i {:trigger Dispatch(s, i, board)} :: step(s, i) == Dispatch(s, i, board)
      modifies this, buffer
      ensures Valid()
      ensures Run(step, old(State()), input) == Session(consumed, output, State())
    {
      consumed, output := 0, [];
      ghost var k := 0;
      while true
        invariant Valid() && RunFor(step, old(State()), input, k) == Some(Session(consumed, output, State()))
        decreases |input| - consumed
      {
        ghost var before := State();
        var r := StepAs(input[consumed..], board, step);
        if r.None? {
          RunForStop(step, old(State()), input, k, Session(consumed, output, before));
          return;
        }
        var (n, out) := r.value;
        RunForNext(step, old(State()), input, k, Session(consumed, output, before), Reply(n, out, State()));
        consumed, output := consumed + n, output + out;
        k := k + 1;
      }
    }
  }
}
