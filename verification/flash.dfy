/**
 * The firmware's SPI-flash side (sw/src/app_component/src/flash.c): the LFSR
 * that regenerates the expected flash image, the byte-order helper, the
 * quad-read request header, the read-ID value, and the comparison of the
 * flash contents against the LFSR sequence.
 *
 * The XSpi driver is outside the model. What the driver delivers is given as
 * `flash`, the sequence of 32-bit words that successive quad reads return;
 * a row read fails (SpiFlashRead returns XST_FAILURE) exactly when the driver
 * has no full row left to deliver.
 */
module Flash {
  import opened Bits

  const READ_WRITE_EXTRA_BYTES: nat := 8
  const READ_ID_BYTES: nat := 4
  const COMMAND_READ_ID: byte := 0x9F
  const COMMAND_QUAD_READ: byte := 0x6B

  /** Bytes compared by ValidateAgainstLfsr, and the size of one quad read. */
  const FLASH_SIZE: nat := 0x2_0000      // 128 * 1024
  const ROW_SIZE: nat := 128
  const WORD_BYTES: nat := 4
  const WORDS_PER_ROW: nat := 32         // ROW_SIZE / sizeof(uint32_t)
  const ROWS: nat := 1024                // FLASH_SIZE / ROW_SIZE
  const VALIDATED_WORDS: nat := 0x8000   // FLASH_SIZE / sizeof(uint32_t)

  /** XST_SUCCESS (0) and XST_FAILURE (1). */
  datatype Status = Success | Failure
  {
    function Code(): (c: nat)
      ensures c <= 1 && (c == 0 <==> this == Success)
    {
      if Success? then 0 else 1
    }
  }

  // ---------------------------------------------------------------------
  // LFSR
  // ---------------------------------------------------------------------

  /** `pickbit(v, bit)`: `(v >> bit) & 1`. A shift by 32 or more is undefined in C. */
  function PickBit(v: u32, bit: nat): (r: nat)
    requires bit < 32
    ensures r <= 1 && r == Bit(v, bit)
  {
    ShrAndOne(v, bit);
    And(Shr(v, bit), 1)
  }

  /** The XOR of the tapped bits 31, 21, 1 and 0, computed as the C code does. */
  function Feedback(lfsr: u32): (r: nat)
    ensures r == TapParity(lfsr)
  {
    Pow2Constants();
    var b31, b21, b1, b0 := PickBit(lfsr, 31), PickBit(lfsr, 21), PickBit(lfsr, 1), PickBit(lfsr, 0);
    XorBits(b31, b21);
    XorBits((b31 + b21) % 2, b1);
    XorBits((b31 + b21 + b1) % 2, b0);
    Xor(Xor(Xor(b31, b21), b1), b0)
  }

  /** The parity of the tapped bits 31, 21, 1 and 0. */
  function TapParity(s: nat): nat
  {
    ((s / 0x8000_0000) % 2 + (s / 0x20_0000) % 2 + (s / 2) % 2 + s % 2) % 2
  }

  /** One LFSR step in closed form: the low 31 bits move up by one and the
      parity of the taps enters at bit 0. */
  function Step(s: u32): u32
  {
    2 * (s % 0x8000_0000) + TapParity(s)
  }

  /** The new bit 0 is the tap parity and the old bits 0..30 move up by one. */
  lemma StepFields(s: u32)
    ensures Step(s) % 2 == TapParity(s) && Step(s) / 2 == s % 0x8000_0000
  {
    DivModUnique(Step(s), 2, s % 0x8000_0000, TapParity(s));
  }

  /** `LfsrNext`, as the C code computes it: the register shifted left by one
      inside `uint32_t` (bit 31 falls off), ORed with the XOR of the tapped
      bits. It is the closed-form step, so it agrees with the host's
      `lfsr_next` on every 32-bit register. */
  method LfsrNext(lfsr: u32) returns (r: u32)
    ensures r == Step(lfsr)
  {
    Pow2Constants();
    var low := lfsr % 0x8000_0000;
    assert Shl32(lfsr, 1) == Shl(low, 1) by {
      DivModUnique(2 * lfsr, U32_LIMIT, lfsr / 0x8000_0000, 2 * low);
    }
    PackFields(low, 1, Feedback(lfsr));
    r := Or(Shl32(lfsr, 1), Feedback(lfsr));
  }

  /** The register after k steps from `seed`. */
  function LfsrIter(seed: u32, k: nat): u32
  {
    if k == 0 then seed else Step(LfsrIter(seed, k - 1))
  }

  /** Zero is a fixed point: every tapped bit of 0 is 0. */
  lemma {:induction false} LfsrZeroFixedPoint(k: nat)
    ensures LfsrIter(0, k) == 0
  {
    if k > 0 {
      LfsrZeroFixedPoint(k - 1);
      assert TapParity(0) == 0;
    }
  }

  /** Stepping k and then j times is stepping k + j times. */
  lemma {:induction false} LfsrIterAdd(seed: u32, k: nat, j: nat)
    ensures LfsrIter(LfsrIter(seed, k), j) == LfsrIter(seed, k + j)
    decreases j
  {
    if j > 0 {
      var before := LfsrIter(LfsrIter(seed, k), j - 1);
      LfsrIterAdd(seed, k, j - 1);
      assert before == LfsrIter(seed, k + j - 1);
      assert LfsrIter(LfsrIter(seed, k), j) == Step(before);
    }
  }

  // ---------------------------------------------------------------------
  // Byte order
  // ---------------------------------------------------------------------

  function ReverseBytes(s: seq<byte>): (r: seq<byte>)
    ensures |r| == |s|
  {
    if s == [] then [] else ReverseBytes(s[1..]) + [s[0]]
  }

  lemma {:induction false} ReverseBytesAt(s: seq<byte>, k: nat)
    requires k < |s|
    ensures ReverseBytes(s)[k] == s[|s| - 1 - k]
  {
    if k < |s| - 1 {
      ReverseBytesAt(s[1..], k);
    }
  }

  /** Reversing twice restores the bytes. */
  lemma ReverseBytesInvolution(s: seq<byte>)
    ensures ReverseBytes(ReverseBytes(s)) == s
  {
    var r := ReverseBytes(s);
    forall k | 0 <= k < |s|
      ensures ReverseBytes(r)[k] == s[k]
    {
      ReverseBytesAt(r, k);
      ReverseBytesAt(s, |s| - 1 - k);
    }
  }

  /** `reverse(buf)`: swaps the four bytes of a word in place. */
  method Reverse(buf: array<byte>)
    requires buf.Length >= 4
    modifies buf
    ensures buf[..4] == ReverseBytes(old(buf[..4]))
    ensures buf[4..] == old(buf[4..])
  {
    var tmp := buf[0];
    buf[0] := buf[3];
    buf[3] := tmp;
    tmp := buf[1];
    buf[1] := buf[2];
    buf[2] := tmp;
    ghost var was := old(buf[..4]);
    forall k | 0 <= k < 4
      ensures buf[..4][k] == ReverseBytes(was)[k]
    {
      ReverseBytesAt(was, k);
    }
  }

  // ---------------------------------------------------------------------
  // Quad read and read-ID requests
  // ---------------------------------------------------------------------

  /** The four request bytes `SpiFlashRead` writes before the transfer. */
  function QuadReadHeader(addr: u32): (h: seq<byte>)
    ensures |h| == 4 && h[0] == COMMAND_QUAD_READ
    ensures h[1] as int * 0x1_0000 + h[2] as int * 0x100 + h[3] as int == addr % 0x100_0000
  {
    var hi, mid, lo := (addr / 0x1_0000) % 0x100, (addr / 0x100) % 0x100, addr % 0x100;
    assert hi * 0x1_0000 + mid * 0x100 + lo == addr % 0x100_0000 by {
      DivModUnique(addr / 0x100, 0x100, addr / 0x1_0000, mid);
      DivModUnique(addr / 0x1_0000, 0x100, addr / 0x100_0000, hi);
      DivModUnique(addr, 0x100_0000, addr / 0x100_0000, hi * 0x1_0000 + mid * 0x100 + lo);
    }
    [COMMAND_QUAD_READ, hi, mid, lo]
  }

  /** One quad read: the request header and the number of bytes clocked. */
  datatype QuadRead = QuadRead(header: seq<byte>, transferLength: nat)

  /** `SpiFlashRead(Spi, WriteBuffer, ReadBuffer, addr, byteCount)`: the
      command 0x6B, the address's low 24 bits big-endian, and a transfer of
      the requested bytes plus the 8 that the header and the dummy cycles take. */
  function SpiFlashRead(addr: u32, byteCount: nat): (q: QuadRead)
    ensures |q.header| == 4 && q.header[0] == 0x6B
    ensures q.header[1] as int * 0x1_0000 + q.header[2] as int * 0x100 + q.header[3] as int == addr % 0x100_0000
    ensures q.transferLength == byteCount + 8
  {
    QuadRead(QuadReadHeader(addr), byteCount + READ_WRITE_EXTRA_BYTES)
  }

  /** Each row read of the validation loop addresses that row and clocks
      exactly as many bytes as the 136-byte read and write buffers hold. */
  lemma RowReadFitsBuffers(row: nat)
    requires row < ROWS
    ensures var q := SpiFlashRead(row * ROW_SIZE, ROW_SIZE);
      q.transferLength == ROW_SIZE + READ_WRITE_EXTRA_BYTES &&
      q.header[1] as int * 0x1_0000 + q.header[2] as int * 0x100 + q.header[3] as int == row * ROW_SIZE
  {
  }

  /** `SpiFlashReadId`: the three ID bytes after the command byte, least
      significant first. */
  function ReadIdValue(buffer: seq<byte>): (id: u32)
    requires |buffer| == READ_ID_BYTES
    ensures id < 0x100_0000
    ensures id % 0x100 == buffer[1] && (id / 0x100) % 0x100 == buffer[2] && id / 0x1_0000 == buffer[3]
  {
    var b1, b2, b3 := buffer[1] as nat, buffer[2] as nat, buffer[3] as nat;
    ReadIdPacking(b1, b2, b3);
    DivModUnique(b1 + b2 * 0x100 + b3 * 0x1_0000, 0x100, b2 + b3 * 0x100, b1);
    DivModUnique(b2 + b3 * 0x100, 0x100, b3, b2);
    DivModUnique(b1 + b2 * 0x100 + b3 * 0x1_0000, 0x1_0000, b3, b1 + b2 * 0x100);
    Or(Or(b1, Shl(b2, 8)), Shl(b3, 16))
  }

  /** `SpiFlashReadId`: `transfer` is what the four-byte read-ID transfer
      returned, or None when a driver call failed. On failure the function
      returns XST_FAILURE before writing `*DevIdPtr`, which keeps `devId`. */
  function SpiFlashReadId(transfer: Option<seq<byte>>, devId: u32): (r: (Status, u32))
    requires transfer.Some? ==> |transfer.value| == READ_ID_BYTES
    ensures r.0 == Success <==> transfer.Some?
    ensures transfer.None? ==> r.1 == devId
    ensures transfer.Some? ==>
      r.1 < 0x100_0000 && r.1 % 0x100 == transfer.value[1] &&
      (r.1 / 0x100) % 0x100 == transfer.value[2] && r.1 / 0x1_0000 == transfer.value[3]
  {
    match transfer
    case None => (Failure, devId)
    case Some(buffer) => (Success, ReadIdValue(buffer))
  }

  lemma ReadIdPacking(b1: byte, b2: byte, b3: byte)
    ensures Or(Or(b1, Shl(b2, 8)), Shl(b3, 16)) == b1 + b2 * 0x100 + b3 * 0x1_0000
  {
    Pow2Constants();
    PackFieldsLow(b1, b2, 8);
    PackFieldsLow(b1 + b2 * 0x100, b3, 16);
  }

  // ---------------------------------------------------------------------
  // ValidateAgainstLfsr
  // ---------------------------------------------------------------------

  /** Word k of a correct image is the register after k + 1 steps. */
  function ExpectedWord(seed: u32, k: nat): u32
  {
    LfsrIter(seed, k + 1)
  }

  /** The number of positions k < n where the flash differs from the sequence. */
  function Mismatches(flash: seq<u32>, seed: u32, n: nat): (r: nat)
    requires n <= |flash|
    ensures r <= n
  {
    if n == 0 then 0
    else Mismatches(flash, seed, n - 1) + (if flash[n - 1] != ExpectedWord(seed, n - 1) then 1 else 0)
  }

  /** The last position k < n at which the running register equals the seed;
      position 0 always qualifies. */
  function LastSeedVisit(seed: u32, n: nat): (r: nat)
    requires n >= 1
    ensures r < n && LfsrIter(seed, r) == seed
  {
    if n == 1 || LfsrIter(seed, n - 1) == seed then n - 1 else LastSeedVisit(seed, n - 1)
  }

  /** No position after LastSeedVisit and before n returns to the seed. */
  lemma {:induction false} LastSeedVisitIsLast(seed: u32, n: nat, j: nat)
    requires n >= 1 && LastSeedVisit(seed, n) < j < n
    ensures LfsrIter(seed, j) != seed
  {
    if LfsrIter(seed, n - 1) != seed && j < n - 1 {
      LastSeedVisitIsLast(seed, n - 1, j);
    }
  }

  /** Words compared before the loop ends or a row read fails. */
  function WordsCompared(available: nat): (n: nat)
    ensures n <= available && n <= VALIDATED_WORDS && n % WORDS_PER_ROW == 0
    ensures n == VALIDATED_WORDS <==> available >= VALIDATED_WORDS
  {
    if available >= VALIDATED_WORDS then VALIDATED_WORDS
    else (available / WORDS_PER_ROW) * WORDS_PER_ROW
  }

  /** Row reads ValidateAgainstLfsr issues: all 1024 when the flash holds the
      32768 words, otherwise up to and including the first row it cannot read. */
  function RowsRequested(available: nat): (n: nat)
    ensures 1 <= n <= ROWS
  {
    if available >= VALIDATED_WORDS then ROWS else available / WORDS_PER_ROW + 1
  }

  /** The quad reads of the first n rows, one row of 128 bytes after another. */
  function RowRequests(n: nat): (q: seq<QuadRead>)
    requires n <= ROWS
    ensures |q| == n
  {
    seq(n, r requires 0 <= r < n => SpiFlashRead(r * ROW_SIZE, ROW_SIZE))
  }

  /** The outputs of ValidateAgainstLfsr: its status and the three values it
      writes through its pointer arguments. */
  datatype Validation = Validation(status: Status, errorCount: u32, first: u32, last: u32)

  /** What ValidateAgainstLfsr computes, in closed form. `first0` and `last0`
      are what the pointers held before; they survive when no row is read. */
  function ValidationOf(flash: seq<u32>, seed: u32, first0: u32, last0: u32): Validation
  {
    var n := WordsCompared(|flash|);
    var errors := Mismatches(flash, seed, n);
    Validation(
      if n == VALIDATED_WORDS && errors == 0 then Success else Failure,
      errors,
      if n == 0 then first0 else flash[LastSeedVisit(seed, n)],
      if n == 0 then last0 else flash[n - 1])
  }

  /** The loop state of ValidateAgainstLfsr after it has compared n words,
      one word at a time as the firmware does. */
  datatype Scan = Scan(lfsr: u32, errors: nat, first: u32, last: u32)

  function ScanWords(flash: seq<u32>, seed: u32, first0: u32, last0: u32, n: nat): (s: Scan)
    requires n <= |flash|
    ensures s.errors <= n
  {
    if n == 0 then Scan(seed, 0, first0, last0)
    else
      var s := ScanWords(flash, seed, first0, last0, n - 1);
      var word := flash[n - 1];
      var next := Step(s.lfsr);
      Scan(next, s.errors + (if word != next then 1 else 0), if s.lfsr == seed then word else s.first, word)
  }

  /** One more word: the scan state after word n from the state before it. */
  lemma ScanWordsNext(flash: seq<u32>, seed: u32, first0: u32, last0: u32, n: nat)
    requires n < |flash|
    ensures var s := ScanWords(flash, seed, first0, last0, n); var next := Step(s.lfsr);
      ScanWords(flash, seed, first0, last0, n + 1) ==
      Scan(next, s.errors + (if flash[n] != next then 1 else 0), if s.lfsr == seed then flash[n] else s.first, flash[n])
  {
  }

  /** The word-by-word scan agrees with the closed form: the register is the
      n-th iterate, the error count is the number of mismatches, `first` is the
      word read at the last visit of the seed and `last` the last word read. */
  lemma {:induction false} ScanClosedForm(flash: seq<u32>, seed: u32, first0: u32, last0: u32, n: nat)
    requires n <= |flash|
    ensures ScanWords(flash, seed, first0, last0, n) ==
      Scan(LfsrIter(seed, n), Mismatches(flash, seed, n),
           if n == 0 then first0 else flash[LastSeedVisit(seed, n)],
           if n == 0 then last0 else flash[n - 1])
  {
    if n > 0 {
      ScanClosedForm(flash, seed, first0, last0, n - 1);
    }
  }

  /** The closed-form outcome is the scan over the words compared. */
  lemma ValidationOfScan(flash: seq<u32>, seed: u32, first0: u32, last0: u32)
    ensures var n := WordsCompared(|flash|); var s := ScanWords(flash, seed, first0, last0, n);
      ValidationOf(flash, seed, first0, last0) ==
      Validation(if n == VALIDATED_WORDS && s.errors == 0 then Success else Failure, s.errors, s.first, s.last)
  {
    ScanClosedForm(flash, seed, first0, last0, WordsCompared(|flash|));
  }

  /** The inner `for` loop of ValidateAgainstLfsr over the 32 words of the
      row that starts at word k: it carries the scan over those words. */
  method CompareRow(flash: seq<u32>, seed: u32, first0: u32, last0: u32, k: nat, row: seq<u32>, before: Scan)
    returns (lfsr: u32, errorCount: u32, first: u32, last: u32)
    requires k + WORDS_PER_ROW <= |flash| && k + WORDS_PER_ROW <= VALIDATED_WORDS
    requires row == flash[k..k + WORDS_PER_ROW]
    requires before == ScanWords(flash, seed, first0, last0, k)
    ensures Scan(lfsr, errorCount, first, last) == ScanWords(flash, seed, first0, last0, k + WORDS_PER_ROW)
  {
    lfsr, first, last := before.lfsr, before.first, before.last;
    errorCount := before.errors;
    var i := 0;
    ghost var n := k;
    while i < WORDS_PER_ROW
      invariant 0 <= i <= WORDS_PER_ROW && n == k + i
      invariant Scan(lfsr, errorCount, first, last) == ScanWords(flash, seed, first0, last0, n)
    {
      var word := row[i];
      assert word == flash[n];
      ScanWordsNext(flash, seed, first0, last0, n);
      if lfsr == seed {
        first := word;
      }
      lfsr := LfsrNext(lfsr);
      last := word;
      if word != lfsr {
        errorCount := errorCount + 1;
      }
      i := i + 1;
      n := n + 1;
    }
  }

  /** `SpiFlashRead(Spi, WriteBuffer, ReadBuffer, addr, row_size)` for row
      number `row`, after the reads of the rows before it. */
  method RequestRow(requests: seq<QuadRead>, ghost row: nat, addr: u32) returns (r: seq<QuadRead>)
    requires row < ROWS && addr == row * ROW_SIZE && requests == RowRequests(row)
    ensures r == RowRequests(row + 1)
  {
    r := requests + [SpiFlashRead(addr, ROW_SIZE)];
    assert forall j :: 0 <= j < row ==> r[j] == requests[j];
  }

  /** A flash that ends inside row `rows`: the words of the rows before it
      are compared, and the read of that row is the last one issued. */
  lemma ShortFlash(available: nat, rows: nat)
    requires rows < ROWS && WORDS_PER_ROW * rows <= available < WORDS_PER_ROW * rows + WORDS_PER_ROW
    ensures WordsCompared(available) == WORDS_PER_ROW * rows && RowsRequested(available) == rows + 1
  {
    DivModUnique(available, WORDS_PER_ROW, rows, available - WORDS_PER_ROW * rows);
  }

  /** `ValidateAgainstLfsr`, with the quad reads it issues, one per row at
      addresses 0, 128, 256, ... */
  method ValidateAgainstLfsr(flash: seq<u32>, seed: u32, first0: u32, last0: u32) returns (v: Validation, requests: seq<QuadRead>)
    ensures v == ValidationOf(flash, seed, first0, last0)
    ensures |requests| == RowsRequested(|flash|) && requests == RowRequests(|requests|)
  {
    var lfsr: u32 := seed;
    var errorCount: u32 := 0;
    var first, last := first0, last0;
    var addr := 0;
    var k := 0;  // index of the next word, addr / 4 + i
    ghost var rows := 0;
    requests := [];
    while addr < FLASH_SIZE
      invariant addr == 128 * rows && k == 32 * rows && rows <= 1024
      invariant k <= |flash|
      invariant Scan(lfsr, errorCount, first, last) == ScanWords(flash, seed, first0, last0, k)
      invariant requests == RowRequests(rows)
    {
      requests := RequestRow(requests, rows, addr);
      if |flash| < k + WORDS_PER_ROW {
        // SpiFlashRead fails on this row
        ShortFlash(|flash|, rows);
        ValidationOfScan(flash, seed, first0, last0);
        return Validation(Failure, errorCount, first, last), requests;
      }
      var row := flash[k..k + WORDS_PER_ROW];
      lfsr, errorCount, first, last := CompareRow(flash, seed, first0, last0, k, row, Scan(lfsr, errorCount, first, last));
      addr := addr + ROW_SIZE;
      k := k + WORDS_PER_ROW;
      rows := rows + 1;
    }
    ValidationOfScan(flash, seed, first0, last0);
    v := Validation(if errorCount == 0 then Success else Failure, errorCount, first, last);
  }

  /** No mismatch among the first n words exactly when they all follow the sequence. */
  lemma {:induction false} MismatchesZeroIff(flash: seq<u32>, seed: u32, n: nat)
    requires n <= |flash|
    ensures Mismatches(flash, seed, n) == 0 <==> forall k :: 0 <= k < n ==> flash[k] == ExpectedWord(seed, k)
  {
    if n > 0 {
      MismatchesZeroIff(flash, seed, n - 1);
    }
  }

  /** Validation succeeds exactly when all 32768 compared words are present and
      each equals the LFSR sequence started from the seed. */
  lemma ValidationSucceedsIff(flash: seq<u32>, seed: u32, first0: u32, last0: u32)
    ensures ValidationOf(flash, seed, first0, last0).status == Success <==>
      |flash| >= VALIDATED_WORDS && forall k :: 0 <= k < VALIDATED_WORDS ==> flash[k] == ExpectedWord(seed, k)
  {
    var n := WordsCompared(|flash|);
    MismatchesZeroIff(flash, seed, n);
  }

  /** With seed 0 the register never leaves the seed, so the word reported as
      first read is overwritten at every position and equals the last word. */
  lemma ZeroSeedFirstIsLast(flash: seq<u32>, first0: u32, last0: u32)
    requires |flash| >= WORDS_PER_ROW
    ensures var v := ValidationOf(flash, 0, first0, last0); v.first == v.last
  {
    var n := WordsCompared(|flash|);
    if n < VALIDATED_WORDS {
      MulAtLeast(|flash| / WORDS_PER_ROW, WORDS_PER_ROW);
    }
    LfsrZeroFixedPoint(n - 1);
  }
}
