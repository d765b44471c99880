/**
 * The host and the firmware side by side: the two LFSRs are the same
 * function, the image the host writes passes the firmware's validation,
 * the host's hex framing is what the firmware's hex codec reads and
 * writes, and each request the host sends is answered by the firmware with
 * the reply the host expects to read back.
 */
module Protocol {
  import opened Bits
  import Flash
  import Firmware
  import Host
  import Immunity

  // ---------------------------------------------------------------------
  // The LFSR and the flash image
  // ---------------------------------------------------------------------

  /** The host's XOR of the taps is the firmware's. */
  lemma TapsAgree(s: u32)
    ensures Host.Taps(s) == Flash.Feedback(s) == Flash.TapParity(s)
  {
    Pow2Constants();
    assert Flash.PickBit(s, 31) == Bit(s, 31) && Flash.PickBit(s, 21) == Bit(s, 21);
    assert Flash.PickBit(s, 1) == Bit(s, 1) && Flash.PickBit(s, 0) == Bit(s, 0);
  }

  /** Python's `lfsr_next` and C's `LfsrNext` agree on every 32-bit register:
      both are the closed-form step. */
  lemma LfsrAgree(s: u32)
    ensures Host.LfsrNext(s) == Flash.Step(s)
  {
    Host.LfsrNextClosedForm(s);
    TapsAgree(s);
    StepIsDoubleMod(s, Host.Taps(s), 2 * s + Host.Taps(s));
  }

  /** Shifting a 32-bit register left by one and dropping bit 32 keeps its
      low 31 bits, doubled: twice the register plus its tap parity, modulo
      2^32, is the firmware's closed-form step. */
  lemma StepIsDoubleMod(s: u32, p: nat, x: nat)
    requires p == Flash.TapParity(s) && x == 2 * s + p
    ensures x % U32_LIMIT == Flash.Step(s)
  {
    var high, low := s / 0x8000_0000, s % 0x8000_0000;
    assert p <= 1;
    assert 2 * s + p == high * U32_LIMIT + (2 * low + p);
    DivModUnique(2 * s + p, U32_LIMIT, high, 2 * low + p);
  }

  /** k host steps are k firmware steps. */
  lemma IterateAgree(seed: u32, k: nat)
    ensures Host.Iterate(seed, k) == Flash.LfsrIter(seed, k)
  {
    forall s: u32
      ensures Host.LfsrNext(s) == Flash.Step(s)
    {
      LfsrAgree(s);
    }
    OrbitMatches(Host.LfsrNext, seed, k);
  }

  /** Any step function that is the firmware's step on 32-bit registers
      walks the firmware's orbit. */
  lemma {:induction false} OrbitMatches(step: nat -> nat, seed: u32, k: nat)
    requires forall s: u32 :: step(s) == Flash.Step(s)
    ensures Host.Orbit(step, seed, k) == Flash.LfsrIter(seed, k)
  {
    if k > 0 {
      OrbitMatches(step, seed, k - 1);
    }
  }

  /** Image word k, as the host writes it, is the word the firmware expects
      at position k. */
  lemma ImageWordExpected(seed: u32, k: nat)
    ensures Host.Iterate(seed, k + 1) == Flash.ExpectedWord(seed, k)
  {
    IterateAgree(seed, k + 1);
  }

  /** A flash holding the host's image for `seed` (or any longer content
      starting with it) passes the firmware's validation against the same
      seed with no error; the firmware compares only the first 0x8000 of
      the 0x20000 words. */
  lemma ImagePassesValidation(image: seq<u32>, seed: u32, first0: u32, last0: u32)
    requires |image| >= Flash.VALIDATED_WORDS
    requires forall k :: 0 <= k < Flash.VALIDATED_WORDS ==> image[k] == Host.Iterate(seed, k + 1)
    ensures Flash.ValidationOf(image, seed, first0, last0).status == Flash.Success
    ensures Flash.ValidationOf(image, seed, first0, last0).errorCount == 0
    ensures Flash.VALIDATED_WORDS < Host.IMAGE_WORDS
  {
    forall k | 0 <= k < Flash.VALIDATED_WORDS
      ensures image[k] == Flash.ExpectedWord(seed, k)
    {
      ImageWordExpected(seed, k);
    }
    NoMismatches(image, seed, Flash.VALIDATED_WORDS);
  }

  lemma {:induction false} NoMismatches(flash: seq<u32>, seed: u32, n: nat)
    requires n <= |flash|
    requires forall k :: 0 <= k < n ==> flash[k] == Flash.ExpectedWord(seed, k)
    ensures Flash.Mismatches(flash, seed, n) == 0
  {
    if n > 0 {
      NoMismatches(flash, seed, n - 1);
    }
  }

  /** The firmware's verdict depends only on the first 0x8000 words: what
      the host writes past them is never compared. */
  lemma ValidationIgnoresTail(a: seq<u32>, b: seq<u32>, seed: u32, first0: u32, last0: u32)
    requires |a| >= Flash.VALIDATED_WORDS && |b| >= Flash.VALIDATED_WORDS
    requires a[..Flash.VALIDATED_WORDS] == b[..Flash.VALIDATED_WORDS]
    ensures Flash.ValidationOf(a, seed, first0, last0) == Flash.ValidationOf(b, seed, first0, last0)
  {
    var n := Flash.VALIDATED_WORDS;
    forall k | 0 <= k < n
      ensures a[k] == b[k]
    {
      assert a[k] == a[..n][k];
    }
    SameMismatches(a, b, seed, n);
  }

  lemma {:induction false} SameMismatches(a: seq<u32>, b: seq<u32>, seed: u32, n: nat)
    requires n <= |a| && n <= |b|
    requires forall k :: 0 <= k < n ==> a[k] == b[k]
    ensures Flash.Mismatches(a, seed, n) == Flash.Mismatches(b, seed, n)
  {
    if n > 0 {
      SameMismatches(a, b, seed, n - 1);
    }
  }

  // ---------------------------------------------------------------------
  // Hex framing
  // ---------------------------------------------------------------------

  /** On the digits 0-9 and a-f the firmware's `hextoint` and the host's
      `int(s, 16)` compute the same value. */
  lemma {:induction false} LowerHexValue(s: seq<byte>)
    requires forall i :: 0 <= i < |s| ==> IsLowerHexDigit(s[i])
    ensures Host.AllHexDigits(s) && Firmware.HexValue(s) == Host.DigitsValue(s)
  {
    if s != [] {
      var init, c := s[..|s| - 1], s[|s| - 1];
      LowerHexValue(init);
      assert Host.AllHexDigits(s);
      Firmware.DigitValueOfHexChar(Host.DigitOf(c));
    }
  }

  /** What `sendint(port, n, w)` writes is what the firmware's `hextoint`
      reads back as n, in exactly w characters, whenever n fits in them. */
  lemma SendIntDecodes(n: nat, w: nat)
    requires 1 <= w && n < Pow16(w)
    ensures |Host.SendInt(n, w)| == w
    ensures Firmware.HexValue(Host.SendInt(n, w)) == n
  {
    var d := Host.HexDigits(n);
    var sent := Host.SendInt(n, w);
    Host.SendIntWidth(n, w);
    Host.SendIntRoundTrip(n, w);
    forall i | 0 <= i < |sent|
      ensures IsLowerHexDigit(sent[i])
    {
      if i >= |sent| - |d| {
        assert sent[i] == sent[|sent| - |d|..][i - (|sent| - |d|)];
      }
    }
    LowerHexValue(sent);
  }

  /** What the firmware's `inttohex(v, n)` sends is what the host's
      `int(s, 16)` reads as the low n nibbles of v. */
  lemma ParseEncoding(v: nat, n: nat)
    requires n >= 1
    ensures Host.ParseHex(Firmware.HexEncoding(v, n)) == Some(v % Pow16(n))
  {
    var e := Firmware.HexEncoding(v, n);
    Firmware.HexEncodingIsLowerHex(v, n);
    LowerHexValue(e);
    Firmware.HexRoundTrip(v, n);
  }

  /** A value that fits in n digits reads back whole. */
  lemma ParseFitting(v: nat, n: nat)
    requires n >= 1 && v < Pow16(n)
    ensures Host.ParseHex(Firmware.HexEncoding(v, n)) == Some(v)
  {
    ParseEncoding(v, n);
  }

  /** A 32-bit register sent in 8 digits reads back whole. */
  lemma ParseWord(v: u32)
    ensures Host.ParseHex(Firmware.HexEncoding(v, 8)) == Some(v)
  {
    Pow16Constants();
    ParseFitting(v, 8);
  }

  // ---------------------------------------------------------------------
  // Each request and its reply
  // ---------------------------------------------------------------------

  /** `'w'` with an offset and a word: the firmware consumes the 11 bytes,
      sends nothing and performs the store the host asked for. */
  lemma WriteFraming(s: Firmware.LoopState, addr: nat, value: nat, rest: seq<byte>, board: Firmware.Board)
    requires board.Valid() && addr < 0x100 && value < U32_LIMIT
    ensures Firmware.Dispatch(s, Host.WriteRequest(addr, value) + rest, board)
      == Some(Firmware.Reply(11, [], s.(addr := addr, data := value, writes := s.writes + [Firmware.RegWrite(addr, value)])))
  {
    Pow16Constants();
    SendIntDecodes(addr, 2);
    SendIntDecodes(value, 8);
    var a, d := Host.SendInt(addr, 2), Host.SendInt(value, 8);
    var input := Host.WriteRequest(addr, value) + rest;
    assert input == [Firmware.CMD_WRITE] + a + d + rest;
    DispatchSelects(s, input, board);
    WriteReplyOf(s, a, d, rest);
  }

  /** `'w'`, two digits and eight digits: the decoded store, nothing sent. */
  lemma WriteReplyOf(s: Firmware.LoopState, a: seq<byte>, d: seq<byte>, rest: seq<byte>)
    requires |a| == 2 && |d| == 8
    ensures Firmware.HexValue(d) < U32_LIMIT
    ensures var addr, value := Firmware.HexValue(a), Firmware.HexValue(d);
      Firmware.WriteReply(s, [Firmware.CMD_WRITE] + a + d + rest)
        == Some(Firmware.Reply(11, [], s.(addr := addr, data := value, writes := s.writes + [Firmware.RegWrite(addr, value)])))
  {
    Pow16Constants();
    var input := [Firmware.CMD_WRITE] + a + d + rest;
    assert input[1..3] == a;
    assert input[3..11] == d;
  }

  /** `'r'` with an offset: the firmware consumes 3 bytes and answers the
      register in 8 digits, which the host reads back as the value this read
      of the register returned. */
  lemma ReadFraming(s: Firmware.LoopState, addr: nat, rest: seq<byte>, board: Firmware.Board)
    requires board.Valid() && addr < 0x100
    ensures var v := board.readReg(s.readCount, addr);
      Firmware.Dispatch(s, Host.ReadRequest(addr) + rest, board)
        == Some(Firmware.Reply(3, Firmware.HexEncoding(v, 8), s.(addr := addr, data := v, readCount := s.readCount + 1)))
    ensures Host.ParseHex(Firmware.HexEncoding(board.readReg(s.readCount, addr), 8)) == Some(board.readReg(s.readCount, addr))
  {
    Pow16Constants();
    SendIntDecodes(addr, 2);
    var a := Host.SendInt(addr, 2);
    var input := Host.ReadRequest(addr) + rest;
    assert input == [Firmware.CMD_READ] + a + rest;
    assert input[1..3] == a;
    DispatchSelects(s, input, board);
    ParseWord(board.readReg(s.readCount, addr));
  }

  /** `StartDio`: the firmware stores the settings word at offset 0x0c and
      what follows is the read of the status register. */
  lemma StartDioFraming(s: Firmware.LoopState, mode: int, phase: int, divider: int, rest: seq<byte>, board: Firmware.Board)
    requires board.Valid()
    ensures var w := Host.SettingsWord(mode, phase, divider);
      Firmware.Dispatch(s, Host.StartDioRequest(mode, phase, divider) + rest, board)
        == Some(Firmware.Reply(11, [], s.(addr := Host.DIO_SETTINGS_ADDR, data := w,
                                          writes := s.writes + [Firmware.RegWrite(Host.DIO_SETTINGS_ADDR, w)])))
    ensures Host.StartDioRequest(mode, phase, divider)[11..] == Host.ReadRequest(Host.DIO_STATUS_ADDR)
  {
    var w := Host.SettingsWord(mode, phase, divider);
    WriteThenRead(s, Host.DIO_SETTINGS_ADDR, w, Host.DIO_STATUS_ADDR, rest, board);
  }

  /** `CheckBram`: the firmware stores the host's seed at offset 0x18 and
      what follows is the read of the BRAM status register. */
  lemma BramFraming(s: Firmware.LoopState, qspiSeed: nat, bramSeed: u32, echoData: seq<byte>, rest: seq<byte>, board: Firmware.Board)
    requires board.Valid()
    ensures Firmware.Dispatch(s, Host.Request(Host.BramCheck, qspiSeed, bramSeed, echoData) + rest, board)
      == Some(Firmware.Reply(11, [], s.(addr := Host.BRAM_SEED_ADDR, data := bramSeed,
                                        writes := s.writes + [Firmware.RegWrite(Host.BRAM_SEED_ADDR, bramSeed)])))
    ensures Host.Request(Host.BramCheck, qspiSeed, bramSeed, echoData)[11..] == Host.ReadRequest(Host.BRAM_STATUS_ADDR)
  {
    Host.BramRequest(qspiSeed, bramSeed, echoData);
    WriteThenRead(s, Host.BRAM_SEED_ADDR, bramSeed, Host.BRAM_STATUS_ADDR, rest, board);
  }

  /** A write request followed by a read request: the write is one
      complete command of 11 bytes. */
  lemma WriteThenRead(s: Firmware.LoopState, addr: nat, value: nat, readAddr: nat, rest: seq<byte>, board: Firmware.Board)
    requires board.Valid() && addr < 0x100 && value < U32_LIMIT
    ensures Firmware.Dispatch(s, Host.WriteRequest(addr, value) + Host.ReadRequest(readAddr) + rest, board)
      == Some(Firmware.Reply(11, [], s.(addr := addr, data := value, writes := s.writes + [Firmware.RegWrite(addr, value)])))
    ensures (Host.WriteRequest(addr, value) + Host.ReadRequest(readAddr))[11..] == Host.ReadRequest(readAddr)
  {
    var write, read := Host.WriteRequest(addr, value), Host.ReadRequest(readAddr);
    assert (write + read)[11..] == read;
    Host.Regroup(write, read, rest);
    WriteFraming(s, addr, value, read + rest, board);
  }

  /** The host's verdicts on the registers it reads back are the
      decoders applied to the values the firmware read, whichever read of
      the session (n) it was. */
  lemma RegisterReports(board: Firmware.Board, n: nat)
    ensures Host.CheckDio(Firmware.HexEncoding(board.readReg(n, Host.DIO_STATUS_ADDR), 8))
      == Some(Host.DioReportOf(board.readReg(n, Host.DIO_STATUS_ADDR)))
    ensures Host.CheckMouse(Firmware.HexEncoding(board.readReg(n, Host.PS2_POS_ADDR), 8))
      == Some(Host.MouseReportOf(board.readReg(n, Host.PS2_POS_ADDR)))
    ensures Host.CheckBram(Firmware.HexEncoding(board.readReg(n, Host.BRAM_STATUS_ADDR), 8))
      == Some(Host.BramOutcomeOf(board.readReg(n, Host.BRAM_STATUS_ADDR)))
  {
    ParseWord(board.readReg(n, Host.DIO_STATUS_ADDR));
    ParseWord(board.readReg(n, Host.PS2_POS_ADDR));
    ParseWord(board.readReg(n, Host.BRAM_STATUS_ADDR));
  }

  /** The echo request: the firmware consumes the count and the 100 bytes
      and sends exactly those 100 bytes back, so `TestEcho` finds no
      mismatch. */
  lemma EchoFraming(s: Firmware.LoopState, qspiSeed: nat, bramSeed: nat, data: seq<byte>, rest: seq<byte>, board: Firmware.Board)
    requires board.Valid() && |data| == Host.ECHO_SIZE
    ensures Firmware.Dispatch(s, Host.Request(Host.EchoCheck, qspiSeed, bramSeed, data) + rest, board)
      == Some(Firmware.Reply(3 + Host.ECHO_SIZE, data, s.(data := Host.ECHO_SIZE)))
    ensures |data| == Host.Check.EchoCheck.ReplyLength()
  {
    Pow16Constants();
    SendIntDecodes(Host.ECHO_SIZE, 2);
    var count := Host.SendInt(Host.ECHO_SIZE, 2);
    var input := Host.Request(Host.EchoCheck, qspiSeed, bramSeed, data) + rest;
    assert input == [Firmware.CMD_ECHO] + count + data + rest;
    DispatchSelects(s, input, board);
    EchoReplyOf(s, count, data, rest);
  }

  /** `'e'`, a two-digit count and that many bytes: the bytes come back. */
  lemma EchoReplyOf(s: Firmware.LoopState, count: seq<byte>, data: seq<byte>, rest: seq<byte>)
    requires |count| == 2 && Firmware.HexValue(count) == |data|
    ensures Firmware.EchoReply(s, [Firmware.CMD_ECHO] + count + data + rest)
      == Some(Firmware.Reply(3 + |data|, data, s.(data := |data|)))
  {
    var input := [Firmware.CMD_ECHO] + count + data + rest;
    assert input[1..3] == count;
    assert input[3..3 + |data|] == data;
  }

  /** Which reply function answers a command byte. */
  lemma DispatchSelects(s: Firmware.LoopState, input: seq<byte>, board: Firmware.Board)
    requires board.Valid() && |input| >= 1
    ensures input[0] == Firmware.CMD_WRITE ==> Firmware.Dispatch(s, input, board) == Firmware.WriteReply(s, input)
    ensures input[0] == Firmware.CMD_READ ==> Firmware.Dispatch(s, input, board) == Firmware.ReadReply(s, input, board)
    ensures input[0] == Firmware.CMD_ECHO ==> Firmware.Dispatch(s, input, board) == Firmware.EchoReply(s, input)
    ensures input[0] == Firmware.CMD_FLASH_ID ==> Firmware.Dispatch(s, input, board) == Firmware.FlashIdReply(s, board)
    ensures input[0] == Firmware.CMD_XADC ==> Firmware.Dispatch(s, input, board) == Firmware.XadcReply(s, board)
  {
  }

  /** The flash verification request: the firmware consumes 9 bytes,
      validates the flash against the host's seed and answers 25
      characters. */
  lemma QuadReadFraming(s: Firmware.LoopState, seed: u32, bramSeed: nat, echoData: seq<byte>, rest: seq<byte>, board: Firmware.Board)
    requires board.Valid()
    ensures var v := Flash.ValidationOf(board.flash(s.quadReads), seed, s.first, s.last);
      Firmware.Dispatch(s, Host.Request(Host.FlashVerifyCheck, seed, bramSeed, echoData) + rest, board)
        == Some(Firmware.Reply(9, Firmware.QuadReadResponse(v), Firmware.QuadReadNext(s, seed, v)))
  {
    Pow16Constants();
    SendIntDecodes(seed, 8);
    var input := Host.Request(Host.FlashVerifyCheck, seed, bramSeed, echoData) + rest;
    assert input[1..9] == Host.SendInt(seed, 8);
    assert input[0] == Firmware.CMD_QUAD_READ;
    Firmware.QuadReadReplyIs(s, input, board, Flash.ValidationOf(board.flash(s.quadReads), seed, s.first, s.last));
  }

  /** The host's `FlashRead` recovers the firmware's verdict, error count
      and first and last words from the 25 characters. */
  lemma QuadReadResponseParses(v: Flash.Validation)
    ensures |Firmware.QuadReadResponse(v)| == Host.Check.FlashVerifyCheck.ReplyLength()
    ensures Host.FlashRead(Firmware.QuadReadResponse(v))
      == Some(Host.FlashReport(v.status == Flash.Success, v.errorCount, v.first, v.last))
  {
    var code := Firmware.HexEncoding(v.status.Code(), 1);
    var e, f, l := Firmware.HexEncoding(v.errorCount, 8), Firmware.HexEncoding(v.first, 8), Firmware.HexEncoding(v.last, 8);
    var r := Firmware.QuadReadResponse(v);
    assert r == code + e + f + l;
    assert r[..1] == code && r[1..9] == e && r[9..17] == f && r[17..] == l;
    Pow16Constants();
    ParseEncoding(v.status.Code(), 1);
    ParseWord(v.errorCount);
    ParseWord(v.first);
    ParseWord(v.last);
  }

  /** `'f'`: the firmware answers the ID in 6 characters and the host
      reports the Macronix part exactly when the transfer returned the bytes
      0xc2, 0x20, 0x16 after the command byte. */
  lemma FlashIdFraming(s: Firmware.LoopState, rest: seq<byte>, board: Firmware.Board)
    requires board.Valid()
    ensures var id := Flash.SpiFlashReadId(board.idTransfer(s.idReads), s.deviceId).1;
      Firmware.Dispatch(s, Host.Request(Host.FlashIdCheck, 0, 0, []) + rest, board)
        == Some(Firmware.Reply(1, Firmware.HexEncoding(id, 6), s.(deviceId := id, idReads := s.idReads + 1)))
  {
    var input := Host.Request(Host.FlashIdCheck, 0, 0, []) + rest;
    assert input[0] == Firmware.CMD_FLASH_ID;
    DispatchSelects(s, input, board);
  }

  /** The host reports the Macronix part exactly when the read-ID transfer
      returned the bytes 0xc2, 0x20, 0x16 after the command byte. */
  lemma FlashIdParses(transfer: seq<byte>, devId: u32)
    requires |transfer| == Flash.READ_ID_BYTES
    ensures var id := Flash.SpiFlashReadId(Some(transfer), devId).1;
      Host.FlashReadId(Firmware.HexEncoding(id, 6)) == Some(transfer[1] == 0xc2 && transfer[2] == 0x20 && transfer[3] == 0x16)
  {
    var id := Flash.SpiFlashReadId(Some(transfer), devId).1;
    IdParses(id);
    MacronixBytes(id);
  }

  /** Six characters carry a 24-bit ID whole. */
  lemma IdParses(id: nat)
    requires id < 0x100_0000
    ensures Host.FlashReadId(Firmware.HexEncoding(id, 6)) == Some(id == Host.MACRONIX_ID)
  {
    var e := Firmware.HexEncoding(id, 6);
    assert Host.ParseHex(e) == Some(id) by {
      Pow16Constants();
      ParseFitting(id, 6);
    }
  }

  /** The ID 0x1620c2 is the bytes 0xc2, 0x20, 0x16, low byte first. */
  lemma MacronixBytes(id: nat)
    requires id < 0x100_0000
    ensures id == Host.MACRONIX_ID <==> id % 0x100 == 0xc2 && (id / 0x100) % 0x100 == 0x20 && id / 0x1_0000 == 0x16
  {
    ThreeFields(0x16, 0x20, 0xc2);
    if id % 0x100 == 0xc2 && (id / 0x100) % 0x100 == 0x20 && id / 0x1_0000 == 0x16 {
      Recompose(id);
    }
  }

  /** A word below 2^24 is its three bytes. */
  lemma Recompose(w: nat)
    ensures w == (w / 0x1_0000) * 0x1_0000 + ((w / 0x100) % 0x100) * 0x100 + w % 0x100
  {
    DivDiv(w, 0x100, 0x100);
    assert w / 0x100 == (w / 0x100 / 0x100) * 0x100 + (w / 0x100) % 0x100;
  }

  /** `'x'`: the firmware answers with the 16 characters of the four
      samples and consumes nothing more. */
  lemma XadcFraming(s: Firmware.LoopState, rest: seq<byte>, board: Firmware.Board)
    requires board.Valid()
    ensures var x := board.xadc(s.xadcReads);
      Firmware.Dispatch(s, Host.Request(Host.XadcCheck, 0, 0, []) + rest, board)
        == Some(Firmware.Reply(1, XadcResponse(x), s.(xadcReads := s.xadcReads + 1)))
  {
    var input := Host.Request(Host.XadcCheck, 0, 0, []) + rest;
    assert input[0] == Firmware.CMD_XADC;
    DispatchSelects(s, input, board);
  }

  /** The characters the firmware sends for the four samples. */
  function XadcResponse(x: seq<u16>): (r: seq<byte>)
    requires |x| == 4
    ensures |r| == Host.Check.XadcCheck.ReplyLength()
  {
    Firmware.HexEncoding(x[0], 4) + Firmware.HexEncoding(x[1], 4) + Firmware.HexEncoding(x[2], 4) + Firmware.HexEncoding(x[3], 4)
  }

  /** `ReadXadc` recovers the 12-bit code of each sample. */
  lemma XadcParses(x: seq<u16>)
    requires |x| == 4
    ensures Host.ReadXadc(XadcResponse(x)) == Some([x[0] / 16, x[1] / 16, x[2] / 16, x[3] / 16])
  {
    var r := XadcResponse(x);
    var a, b, c, d := Firmware.HexEncoding(x[0], 4), Firmware.HexEncoding(x[1], 4), Firmware.HexEncoding(x[2], 4), Firmware.HexEncoding(x[3], 4);
    assert r[..4] == a && r[4..8] == b && r[8..12] == c && r[12..] == d;
    SampleParses(x[0]);
    SampleParses(x[1]);
    SampleParses(x[2]);
    SampleParses(x[3]);
  }

  /** Four characters carry a 16-bit sample whole. */
  lemma SampleParses(v: u16)
    ensures Host.XadcCode(Firmware.HexEncoding(v, 4)) == Some(v / 16)
  {
    var e := Firmware.HexEncoding(v, 4);
    assert Host.ParseHex(e) == Some(v) by {
      Pow16Constants();
      ParseFitting(v, 4);
    }
  }

  /** Any byte that is not a command only pulses the UART error line. */
  lemma UnknownCommand(s: Firmware.LoopState, c: byte, rest: seq<byte>, board: Firmware.Board)
    requires board.Valid()
    requires c !in {Firmware.CMD_WRITE, Firmware.CMD_READ, Firmware.CMD_ECHO, Firmware.CMD_QUAD_READ, Firmware.CMD_FLASH_ID, Firmware.CMD_XADC}
    ensures Firmware.Dispatch(s, [c] + rest, board) == Some(Firmware.Reply(1, [], s.(uartErrPulses := s.uartErrPulses + 1)))
  {
    assert ([c] + rest)[0] == c;
  }

  // ---------------------------------------------------------------------
  // What the host makes of the register reads
  // ---------------------------------------------------------------------

  /** The host's DIO verdict is the firmware's self-test verdict on the same
      status word, once the firmware has seen TVALID. */
  lemma DioVerdictsAgree(status: u32, dioStatus: u32)
    requires Bit(status, Firmware.DIO_STATUS_TVALID_BIT) == 1
    ensures var r := Host.DioReportOf(dioStatus);
      Firmware.DioCheckTest(status, dioStatus) == Flash.Success <==> r.running && !r.badConfig && r.errorBits == 0
  {
  }

  /** `CheckMouse` prints as Y the field the firmware's `getxpos` extracts
      and as X the one `getypos` extracts. */
  lemma MouseLabelsSwapped(raw: u32)
    requires Bit(raw, 26) == 1
    ensures Host.MouseReportOf(raw).Fresh?
    ensures Host.MouseReportOf(raw).y == Firmware.GetXPos(raw)
    ensures Host.MouseReportOf(raw).x == Firmware.GetYPos(raw)
  {
  }

  /** The host's settings word is the word DioStartTest builds inline
      (sw/src/app_component/src/main.c, line 110) from the same mode, phase
      and divider. */
  lemma SettingsAgree(mode: Firmware.DioMode, m: int, phase: int, divider: int)
    requires mode.Value() == m % 4
    ensures Host.SettingsWord(m, phase, divider) == Firmware.DioSettingsWord(mode, phase % 0x100, divider % 0x100)
  {
    var w := Firmware.DioSettingsWord(mode, phase % 0x100, divider % 0x100);
    Recompose(w);
  }
}
