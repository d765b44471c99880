/**
 * The host side of the test protocol (host/test.py): the image it writes
 * to the QSPI flash, the ASCII-hex framing of its requests, the decoding of
 * the board's replies, and the order in which `run_test` performs the setup
 * and the periodic checks. host/immunity.py repeats the same helpers; the
 * Immunity module models only its own main sequence on top of this one.
 */
module Host {
  import opened Bits

  // ---------------------------------------------------------------------
  // The LFSR and the flash image
  // ---------------------------------------------------------------------

  /** `pickbit(x, i)`: bit i of x. */
  function PickBit(x: nat, i: nat): (r: nat)
    ensures r == Bit(x, i) && r <= 1
  {
    ShrAndOne(x, i);
    And(Shr(x, i), 1)
  }

  /** The XOR of the taps 31, 21, 1 and 0: a single bit. */
  function Taps(x: nat): (r: nat)
    ensures r <= 1
  {
    var a, b, c, d := Bit(x, 31), Bit(x, 21), Bit(x, 1), Bit(x, 0);
    XorOfBits(a, b);
    XorOfBits(Xor(a, b), c);
    XorOfBits(Xor(Xor(a, b), c), d);
    Xor(Xor(Xor(a, b), c), d)
  }

  lemma XorOfBits(a: nat, b: nat)
    requires a <= 1 && b <= 1
    ensures Xor(a, b) <= 1
  {
    XorBits(a, b);
  }

  /** `lfsr_next`: shift left, feed the tap parity into bit 0, and keep 32
      bits (Python integers do not wrap, so the `& 0xffffffff` does). */
  function LfsrNext(lfsr: nat): (r: nat)
    ensures r < U32_LIMIT
  {
    And(Or(Shl(lfsr, 1), Xor(Xor(Xor(PickBit(lfsr, 31), PickBit(lfsr, 21)), PickBit(lfsr, 1)), PickBit(lfsr, 0))), 0xffff_ffff)
  }

  /** `lfsr_next` in arithmetic: twice the register plus the tap parity,
      modulo 2^32. */
  lemma LfsrNextClosedForm(lfsr: nat)
    ensures LfsrNext(lfsr) == (2 * lfsr + Taps(lfsr)) % U32_LIMIT
  {
    var fb := Xor(Xor(Xor(PickBit(lfsr, 31), PickBit(lfsr, 21)), PickBit(lfsr, 1)), PickBit(lfsr, 0));
    assert fb == Taps(lfsr);
    Pow2Constants();
    PackFields(lfsr, 1, fb);
    AndLowMask(Or(Shl(lfsr, 1), fb), 32);
  }

  /** k applications of `step` to `seed`. */
  function Orbit(step: nat -> nat, seed: nat, k: nat): nat
  {
    if k == 0 then seed else step(Orbit(step, seed, k - 1))
  }

  /** The register after k calls of `lfsr_next` from `seed`. */
  function Iterate(seed: nat, k: nat): nat
  {
    Orbit(LfsrNext, seed, k)
  }

  /** A fixed point of `step` stays put. */
  lemma {:induction false} OrbitOfFixedPoint(step: nat -> nat, x: nat, k: nat)
    requires step(x) == x
    ensures Orbit(step, x, k) == x
  {
    if k > 0 {
      OrbitOfFixedPoint(step, x, k - 1);
    }
  }

  /** Zero is a fixed point of `lfsr_next`, so a zero seed gives an all-zero
      image. */
  lemma ZeroSeedStaysZero(k: nat)
    ensures LfsrNext(0) == 0
    ensures Iterate(0, k) == 0
  {
    LfsrNextClosedForm(0);
    OrbitOfFixedPoint(LfsrNext, 0, k);
  }

  /** `size = 1024 * 128` words in random_data.bin. */
  const IMAGE_WORDS: nat := 0x2_0000

  /** The words `step` writes in n rounds: the values after 1, 2, ..., n steps. */
  function OrbitPrefix(step: nat -> nat, seed: nat, n: nat): (words: seq<nat>)
    ensures |words| == n
  {
    if n == 0 then [] else OrbitPrefix(step, seed, n - 1) + [Orbit(step, seed, n)]
  }

  lemma OrbitNext(step: nat -> nat, seed: nat, n: nat)
    ensures Orbit(step, seed, n + 1) == step(Orbit(step, seed, n))
    ensures OrbitPrefix(step, seed, n + 1) == OrbitPrefix(step, seed, n) + [step(Orbit(step, seed, n))]
  {
  }

  lemma {:induction false} OrbitPrefixAt(step: nat -> nat, seed: nat, n: nat, k: nat)
    requires k < n
    ensures OrbitPrefix(step, seed, n)[k] == Orbit(step, seed, k + 1)
  {
    if k < n - 1 {
      OrbitPrefixAt(step, seed, n - 1, k);
    }
  }

  /** `generate_qspi_simfile(seed)`: the words written to random_data.bin,
      each the register after one more step. */
  method GenerateImage(seed: u32) returns (image: seq<u32>)
    ensures |image| == IMAGE_WORDS
    ensures forall k :: 0 <= k < IMAGE_WORDS ==> image[k] == Iterate(seed, k + 1)
  {
    var lfsr: u32 := seed;
    image := [];
    for i := 0 to IMAGE_WORDS
      invariant lfsr == Iterate(seed, i) && image == OrbitPrefix(LfsrNext, seed, i)
    {
      OrbitNext(LfsrNext, seed, i);
      lfsr := LfsrNext(lfsr);
      image := image + [lfsr];
    }
    forall k | 0 <= k < IMAGE_WORDS
      ensures image[k] == Iterate(seed, k + 1)
    {
      OrbitPrefixAt(LfsrNext, seed, IMAGE_WORDS, k);
    }
  }

  // ---------------------------------------------------------------------
  // sendint and int(s, 16)
  // ---------------------------------------------------------------------

  /** `hex(n)[2:]`: the lower-case digits of n with no leading zero ("0" for 0). */
  function HexDigits(n: nat): (s: seq<byte>)
    ensures 1 <= |s| && n < Pow16(|s|)
    ensures |s| > 1 ==> Pow16(|s| - 1) <= n
    ensures forall i :: 0 <= i < |s| ==> IsLowerHexDigit(s[i])
  {
    if n < 16 then [HexChar(n)]
    else
      var s := HexDigits(n / 16);
      assert n == 16 * (n / 16) + n % 16;
      s + [HexChar(n % 16)]
  }

  function Zeros(k: nat): (s: seq<byte>)
    ensures |s| == k && forall i :: 0 <= i < k ==> s[i] == CHAR_0
  {
    seq(k, _ => CHAR_0)
  }

  /** `s.zfill(w)`: '0's on the left up to width w; a longer s is kept whole. */
  function ZFill(s: seq<byte>, w: nat): (r: seq<byte>)
    ensures |r| == if |s| >= w then |s| else w
    ensures r[|r| - |s|..] == s && forall i :: 0 <= i < |r| - |s| ==> r[i] == CHAR_0
  {
    if |s| >= w then s else Zeros(w - |s|) + s
  }

  /** `sendint(port, n, w)`: the bytes it writes. */
  function SendInt(n: nat, w: nat): seq<byte>
  {
    ZFill(HexDigits(n), w)
  }

  /** `sendint` writes exactly w digits when n fits in them and more when
      it does not; the digits are 0-9 and a-f. */
  lemma SendIntWidth(n: nat, w: nat)
    ensures w >= 1 && n < Pow16(w) ==> |SendInt(n, w)| == w
    ensures n >= Pow16(w) ==> |SendInt(n, w)| > w
    ensures forall i :: 0 <= i < |SendInt(n, w)| ==> IsLowerHexDigit(SendInt(n, w)[i])
  {
    var d := HexDigits(n);
    if w >= 1 && n < Pow16(w) && |d| > w {
      Pow16Monotone(w, |d| - 1);
    }
    if n >= Pow16(w) && |d| <= w {
      Pow16Monotone(|d|, w);
    }
  }

  /** A character `int(s, 16)` takes as a digit, in either case. */
  predicate IsHexDigit(c: byte)
  {
    IsLowerHexDigit(c) || CHAR_UPPER_A <= c <= CHAR_UPPER_F
  }

  /** The value of one digit; a lower-case digit is what HexChar writes, an
      upper-case one the same digit shifted by 0x20. */
  function DigitOf(c: byte): (d: nat)
    requires IsHexDigit(c)
    ensures d < 16
    ensures IsLowerHexDigit(c) ==> HexChar(d) == c
    ensures CHAR_UPPER_A <= c <= CHAR_UPPER_F ==> d >= 10 && HexChar(d) == c + 0x20
  {
    if c <= CHAR_9 then c - CHAR_0
    else if c >= CHAR_A then c - CHAR_A + 10
    else c - CHAR_UPPER_A + 10
  }

  predicate AllHexDigits(s: seq<byte>)
  {
    forall i :: 0 <= i < |s| ==> IsHexDigit(s[i])
  }

  /** The value of a string of digits, most significant first. */
  function DigitsValue(s: seq<byte>): (v: nat)
    requires AllHexDigits(s)
    ensures v < Pow16(|s|)
  {
    if s == [] then 0 else DigitsValue(s[..|s| - 1]) * 16 + DigitOf(s[|s| - 1])
  }

  /** `int(s, 16)` on the digits the board sends; None where Python raises
      ValueError (an empty string or a non-digit character). */
  function ParseHex(s: seq<byte>): (r: Option<nat>)
    ensures r.Some? ==> r.value < Pow16(|s|)
  {
    if |s| >= 1 && AllHexDigits(s) then Some(DigitsValue(s)) else None
  }

  lemma DigitOfHexChar(d: nat)
    requires d < 16
    ensures IsHexDigit(HexChar(d)) && DigitOf(HexChar(d)) == d
  {
  }

  lemma {:induction false} HexDigitsValue(n: nat)
    ensures AllHexDigits(HexDigits(n)) && DigitsValue(HexDigits(n)) == n
  {
    var s := HexDigits(n);
    DigitOfHexChar(n % 16);
    if n >= 16 {
      HexDigitsValue(n / 16);
      assert s[..|s| - 1] == HexDigits(n / 16);
    }
  }

  lemma {:induction false} ZerosValue(k: nat)
    ensures AllHexDigits(Zeros(k)) && DigitsValue(Zeros(k)) == 0
  {
    DigitOfHexChar(0);
    if k > 0 {
      ZerosValue(k - 1);
      assert Zeros(k)[..k - 1] == Zeros(k - 1);
    }
  }

  /** Leading zeros do not change the value. */
  lemma {:induction false} LeadingZerosValue(k: nat, s: seq<byte>)
    requires AllHexDigits(s)
    ensures AllHexDigits(Zeros(k) + s) && DigitsValue(Zeros(k) + s) == DigitsValue(s)
  {
    DigitOfHexChar(0);
    if s == [] {
      ZerosValue(k);
      assert Zeros(k) + s == Zeros(k);
    } else {
      var t := Zeros(k) + s;
      LeadingZerosValue(k, s[..|s| - 1]);
      assert t[..|t| - 1] == Zeros(k) + s[..|s| - 1];
    }
  }

  /** `int(..., 16)` reads back what `sendint` wrote, whatever the width. */
  lemma SendIntRoundTrip(n: nat, w: nat)
    ensures ParseHex(SendInt(n, w)) == Some(n)
  {
    var d := HexDigits(n);
    HexDigitsValue(n);
    if |d| < w {
      LeadingZerosValue(w - |d|, d);
      assert SendInt(n, w) == Zeros(w - |d|) + d;
    } else {
      assert SendInt(n, w) == d;
    }
  }

  // ---------------------------------------------------------------------
  // Requests
  // ---------------------------------------------------------------------

  /** Register offsets the host reads and writes. */
  const DIO_SETTINGS_ADDR: nat := 12
  const DIO_STATUS_ADDR: nat := 16
  const PS2_POS_ADDR: nat := 20
  const BRAM_SEED_ADDR: nat := 24
  const BRAM_STATUS_ADDR: nat := 28

  const DIO_MODE_OFF: int := 0
  const DIO_MODE_IMMUNITY_TOP_TO_BOTTOM: int := 1
  const DIO_MODE_IMMUNITY_PORT_PAIRS: int := 2
  const DIO_MODE_EMISSIONS: int := 3

  /** The echo test sends and expects back this many bytes. */
  const ECHO_SIZE: nat := 100

  /** `sendchr(port, 'r'); sendint(port, addr, 2)`: the command byte, then
      digits that read back as the offset; three bytes for an offset below
      0x100. */
  function ReadRequest(addr: nat): (r: seq<byte>)
    ensures |r| >= 3 && r[0] == 'r' as byte && ParseHex(r[1..]) == Some(addr)
    ensures addr < 0x100 <==> |r| == 3
  {
    Pow16Constants();
    SendIntRoundTrip(addr, 2);
    SendIntWidth(addr, 2);
    var r := ['r' as byte] + SendInt(addr, 2);
    assert r[1..] == SendInt(addr, 2);
    r
  }

  /** `sendchr(port, 'w'); sendint(port, addr, 2); sendint(port, value, 8)`:
      eleven bytes when the offset and the value fit their widths, the
      offset in the two digits after the command and the value in the eight
      after those. */
  function WriteRequest(addr: nat, value: nat): (r: seq<byte>)
    ensures |r| >= 11 && r[0] == 'w' as byte
    ensures addr < 0x100 && value < U32_LIMIT ==>
      |r| == 11 && ParseHex(r[1..3]) == Some(addr) && ParseHex(r[3..]) == Some(value)
  {
    Pow16Constants();
    SendIntRoundTrip(addr, 2);
    SendIntWidth(addr, 2);
    SendIntRoundTrip(value, 8);
    SendIntWidth(value, 8);
    var a, v := SendInt(addr, 2), SendInt(value, 8);
    var r := ['w' as byte] + a + v;
    assert |a| == 2 ==> r[1..3] == a && r[3..] == v;
    r
  }

  /** The periodic checks of `run_test`, in the order it issues them. */
  datatype Check = XadcCheck | FlashIdCheck | FlashVerifyCheck | EchoCheck | DioCheck | MouseCheck | BramCheck
  {
    /** Position in the cycle. */
    function Rank(): nat
    {
      match this
      case XadcCheck => 0
      case FlashIdCheck => 1
      case FlashVerifyCheck => 2
      case EchoCheck => 3
      case DioCheck => 4
      case MouseCheck => 5
      case BramCheck => 6
    }

    /** The firmware command its request starts with. */
    function Command(): byte
    {
      match this
      case XadcCheck => 'x' as byte
      case FlashIdCheck => 'f' as byte
      case FlashVerifyCheck => 'q' as byte
      case EchoCheck => 'e' as byte
      case DioCheck => 'r' as byte
      case MouseCheck => 'r' as byte
      case BramCheck => 'w' as byte
    }

    /** The number of bytes the check reads back. */
    function ReplyLength(): nat
    {
      match this
      case XadcCheck => 16
      case FlashIdCheck => 6
      case FlashVerifyCheck => 25
      case EchoCheck => ECHO_SIZE
      case DioCheck => 8
      case MouseCheck => 8
      case BramCheck => 8
    }

    /** The register a register check reads back. */
    function StatusRegister(): nat
      requires DioCheck? || MouseCheck? || BramCheck?
    {
      match this
      case DioCheck => DIO_STATUS_ADDR
      case MouseCheck => PS2_POS_ADDR
      case BramCheck => BRAM_STATUS_ADDR
    }
  }

  /** `FlashRead`'s request, `sendchr(port, 'q'); sendint(port, seed, 8)`:
      the command byte, then digits that read back as the seed; nine bytes
      for a 32-bit seed. */
  function QuadReadRequest(seed: nat): (r: seq<byte>)
    ensures |r| >= 9 && r[0] == 'q' as byte && ParseHex(r[1..]) == Some(seed)
    ensures seed < U32_LIMIT <==> |r| == 9
  {
    Pow16Constants();
    SendIntRoundTrip(seed, 8);
    SendIntWidth(seed, 8);
    var r := ['q' as byte] + SendInt(seed, 8);
    assert r[1..] == SendInt(seed, 8);
    r
  }

  /** `TestEcho`'s request, `sendchr(port, 'e'); sendint(port, 100, 2)` and
      the payload: the count reads back as 100 and the payload follows it. */
  function EchoRequest(data: seq<byte>): (r: seq<byte>)
    ensures |r| == 3 + |data| && r[0] == 'e' as byte && ParseHex(r[1..3]) == Some(ECHO_SIZE) && r[3..] == data
  {
    CountedRequest('e' as byte, ECHO_SIZE, data)
  }

  /** A command byte, a count sent as two digits, and a payload. */
  function CountedRequest(cmd: byte, count: nat, data: seq<byte>): (r: seq<byte>)
    requires count < 0x100
    ensures |r| == 3 + |data| && r[0] == cmd && ParseHex(r[1..3]) == Some(count) && r[3..] == data
  {
    Pow16Constants();
    SendIntRoundTrip(count, 2);
    SendIntWidth(count, 2);
    var n := SendInt(count, 2);
    var r := [cmd] + n + data;
    assert r[1..3] == n && r[3..] == data;
    r
  }

  /** The bytes each check writes: `qspiSeed` seeds the flash image,
      `bramSeed` is the random BRAM seed and `echoData` the encoded echo
      payload. Each request starts with the byte of the firmware command it
      asks for (`CheckBram` starts with its write). */
  function Request(c: Check, qspiSeed: nat, bramSeed: nat, echoData: seq<byte>): (r: seq<byte>)
    ensures |r| >= 1 && r[0] == c.Command()
  {
    match c
    case XadcCheck => ['x' as byte]
    case FlashIdCheck => ['f' as byte]
    case FlashVerifyCheck => QuadReadRequest(qspiSeed)
    case EchoCheck => EchoRequest(echoData)
    case DioCheck => ReadRequest(c.StatusRegister())
    case MouseCheck => ReadRequest(c.StatusRegister())
    case BramCheck => WriteRequest(BRAM_SEED_ADDR, bramSeed) + ReadRequest(c.StatusRegister())
  }

  /** `CheckBram`'s request is the write of the seed followed by the read
      of the status register. */
  lemma BramRequest(qspiSeed: nat, bramSeed: nat, echoData: seq<byte>)
    ensures Request(BramCheck, qspiSeed, bramSeed, echoData)
      == WriteRequest(BRAM_SEED_ADDR, bramSeed) + ReadRequest(BRAM_STATUS_ADDR)
  {
  }

  // ---------------------------------------------------------------------
  // Reading the replies
  // ---------------------------------------------------------------------

  /** `testbit(n, b)`. */
  function TestBit(n: nat, b: nat): (r: bool)
    ensures r <==> Bit(n, b) == 1
  {
    ShrAndOne(n, b);
    And(Shr(n, b), 1) == 1
  }

  /** `int(raw, 16) // 16`: one XADC sample reduced to its 12-bit code. */
  function XadcCode(raw: seq<byte>): (r: Option<nat>)
    requires |raw| == 4
    ensures r.Some? <==> AllHexDigits(raw)
    ensures r.Some? ==> r.value < 0x1000
  {
    Pow16Constants();
    match ParseHex(raw)
    case None => None
    case Some(v) => Some(v / 16)
  }

  /** `ReadXadc`: the codes of the temperature, VCCINT, VCCAUX and VBRAM
      samples, read as four characters each. */
  function ReadXadc(reply: seq<byte>): (r: Option<seq<nat>>)
    requires |reply| == 16
    ensures r.Some? <==> AllHexDigits(reply)
    ensures r.Some? ==> |r.value| == 4 && forall i :: 0 <= i < 4 ==> r.value[i] < 0x1000
  {
    var t, vi, va, vb := XadcCode(reply[..4]), XadcCode(reply[4..8]), XadcCode(reply[8..12]), XadcCode(reply[12..]);
    assert reply == reply[..4] + reply[4..8] + reply[8..12] + reply[12..];
    if t.None? || vi.None? || va.None? || vb.None? then None
    else Some([t.value, vi.value, va.value, vb.value])
  }

  /** The JEDEC ID of the Macronix part on the board. */
  const MACRONIX_ID: nat := 0x1620c2

  /** `FlashReadId`: whether the six characters read back name the
      Macronix part; None where `int(…, 16)` raises. */
  function FlashReadId(reply: seq<byte>): (r: Option<bool>)
    ensures r.Some? <==> ParseHex(reply).Some?
    ensures r == Some(true) <==> ParseHex(reply) == Some(MACRONIX_ID)
  {
    match ParseHex(reply)
    case None => None
    case Some(id) => Some(id == MACRONIX_ID)
  }

  datatype FlashReport = FlashReport(passed: bool, errorCount: nat, first: nat, last: nat)

  /** `FlashRead`: the pass flag (1 character, '0' is a pass), the error
      count and the first and last words (8 characters each). */
  function FlashRead(reply: seq<byte>): (r: Option<FlashReport>)
    requires |reply| == 25
    ensures r.Some? <==> AllHexDigits(reply)
    ensures r.Some? ==> (r.value.passed <==> ParseHex(reply[..1]) == Some(0))
    ensures r.Some? ==> r.value.errorCount < U32_LIMIT && r.value.first < U32_LIMIT && r.value.last < U32_LIMIT
  {
    Pow16Constants();
    var p, e, f, l := ParseHex(reply[..1]), ParseHex(reply[1..9]), ParseHex(reply[9..17]), ParseHex(reply[17..]);
    assert reply == reply[..1] + reply[1..9] + reply[9..17] + reply[17..];
    if p.None? || e.None? || f.None? || l.None? then None
    else Some(FlashReport(p.value == 0, e.value, f.value, l.value))
  }

  datatype DioReport = DioReport(running: bool, badConfig: bool, errorBits: nat)

  /** What `CheckDio` reports for a status word: bit 16 set means the
      counters are not running, bit 17 a bad phase/divider setting, and the
      low 16 bits flag the pins whose samples mismatched. */
  function DioReportOf(status: nat): (r: DioReport)
    ensures r.running <==> Bit(status, 16) == 0
    ensures r.badConfig <==> Bit(status, 17) == 1
    ensures r.errorBits == status % 0x1_0000
  {
    Pow2Constants();
    AndSingleBit(status, 16);
    AndSingleBit(status, 17);
    AndLowMask(status, 16);
    DioReport(And(status, 0x1_0000) == 0, And(status, 0x2_0000) != 0, And(status, 0xffff))
  }

  /** `CheckDio`: the report on the status word read back; None where
      `int(…, 16)` raises. */
  function CheckDio(reply: seq<byte>): (r: Option<DioReport>)
    ensures r.Some? <==> ParseHex(reply).Some?
    ensures r.Some? ==> r.value == DioReportOf(ParseHex(reply).value)
  {
    match ParseHex(reply)
    case None => None
    case Some(status) => Some(DioReportOf(status))
  }

  /** `CheckMouse` returns False on stale data without looking further;
      otherwise it reports the two error bits and the position, labelling
      bits 12-23 Y and bits 0-11 X. */
  datatype MouseReport = Stale | Fresh(notInitialized: bool, readIdFailed: bool, y: nat, x: nat)

  function MouseReportOf(status: nat): (r: MouseReport)
    ensures r.Stale? <==> Bit(status, 26) == 0
    ensures r.Fresh? ==> (r.notInitialized <==> Bit(status, 25) == 1) && (r.readIdFailed <==> Bit(status, 24) == 1)
    ensures r.Fresh? ==> r.y == (status / 0x1000) % 0x1000 && r.x == status % 0x1000
  {
    if !TestBit(status, 26) then Stale
    else
      PositionFields(status);
      Fresh(TestBit(status, 25), TestBit(status, 24), And(Shr(status, 12), 0xfff), And(status, 0xfff))
  }

  /** The two 12-bit position fields of the PS/2 status word. */
  lemma PositionFields(status: nat)
    ensures And(Shr(status, 12), 0xfff) == (status / 0x1000) % 0x1000
    ensures And(status, 0xfff) == status % 0x1000
  {
    Pow2Constants();
    AndLowMask(Shr(status, 12), 12);
    AndLowMask(status, 12);
  }

  /** `CheckMouse`: the report on the position word read back; None where
      `int(…, 16)` raises. */
  function CheckMouse(reply: seq<byte>): (r: Option<MouseReport>)
    ensures r.Some? <==> ParseHex(reply).Some?
    ensures r.Some? ==> r.value == MouseReportOf(ParseHex(reply).value)
  {
    match ParseHex(reply)
    case None => None
    case Some(status) => Some(MouseReportOf(status))
  }

  /** `CheckBram` returns False (not complete) while bit 1 is clear, and
      otherwise True with bit 0 telling pass from fail. */
  datatype BramOutcome = Incomplete | Passed | Failed

  function BramOutcomeOf(status: nat): (r: BramOutcome)
    ensures r == Incomplete <==> Bit(status, 1) == 0
    ensures r == Passed <==> Bit(status, 1) == 1 && Bit(status, 0) == 1
  {
    if TestBit(status, 1) then (if TestBit(status, 0) then Passed else Failed) else Incomplete
  }

  /** `CheckBram`: the outcome the status word read back gives; None where
      `int(…, 16)` raises. */
  function CheckBram(reply: seq<byte>): (r: Option<BramOutcome>)
    ensures r.Some? <==> ParseHex(reply).Some?
    ensures r.Some? ==> r.value == BramOutcomeOf(ParseHex(reply).value)
  {
    match ParseHex(reply)
    case None => None
    case Some(status) => Some(BramOutcomeOf(status))
  }

  // ---------------------------------------------------------------------
  // The echo test
  // ---------------------------------------------------------------------

  /** A code point `chr` accepts and UTF-8 can encode (no surrogate). */
  predicate IsScalarValue(cp: nat)
  {
    cp < 0x11_0000 && !(0xD800 <= cp < 0xE000)
  }

  /** `chr(cp).encode('utf-8')`: one byte below 0x80, up to four above. */
  function Utf8(cp: nat): (b: seq<byte>)
    requires IsScalarValue(cp)
    ensures 1 <= |b| <= 4 && (|b| == 1 <==> cp < 0x80)
  {
    if cp < 0x80 then [cp]
    else if cp < 0x800 then [0xC0 + cp / 0x40, 0x80 + cp % 0x40]
    else if cp < 0x1_0000 then [0xE0 + cp / 0x1000, 0x80 + (cp / 0x40) % 0x40, 0x80 + cp % 0x40]
    else [0xF0 + cp / 0x4_0000, 0x80 + (cp / 0x1000) % 0x40, 0x80 + (cp / 0x40) % 0x40, 0x80 + cp % 0x40]
  }

  /** `(''.join([chr(x) for x in values])).encode('utf-8')`. */
  function EncodeUtf8(values: seq<nat>): (b: seq<byte>)
    requires forall i :: 0 <= i < |values| ==> IsScalarValue(values[i])
    ensures |b| >= |values|
  {
    if values == [] then [] else Utf8(values[0]) + EncodeUtf8(values[1..])
  }

  /** The echo payload is drawn from [0, 128): every value is one byte, so
      the data written is the values themselves, as many bytes as values. */
  lemma {:induction false} AsciiEncodesAsItself(values: seq<nat>)
    requires forall i :: 0 <= i < |values| ==> values[i] < 0x80
    ensures |EncodeUtf8(values)| == |values|
    ensures forall i :: 0 <= i < |values| ==> EncodeUtf8(values)[i] == values[i]
  {
    if values != [] {
      AsciiEncodesAsItself(values[1..]);
      assert EncodeUtf8(values) == [values[0]] + EncodeUtf8(values[1..]);
    }
  }

  /** A single value of 0x80 or more would make the data longer than the
      values, and the 100 bytes read back would no longer cover it. */
  lemma {:induction false} NonAsciiLengthens(values: seq<nat>, j: nat)
    requires forall i :: 0 <= i < |values| ==> IsScalarValue(values[i])
    requires j < |values| && values[j] >= 0x80
    ensures |EncodeUtf8(values)| > |values|
  {
    if j > 0 {
      NonAsciiLengthens(values[1..], j - 1);
    }
  }

  /** The `for ... else` scan of `TestEcho`: the first position where the
      echo differs from the data, or None when all 100 bytes match. */
  method CompareEcho(data: seq<byte>, echo: seq<byte>) returns (mismatch: Option<nat>)
    requires |data| == ECHO_SIZE && |echo| == ECHO_SIZE
    ensures mismatch.None? <==> echo == data
    ensures mismatch.Some? ==> mismatch.value < ECHO_SIZE && echo[mismatch.value] != data[mismatch.value]
    ensures mismatch.Some? ==> echo[..mismatch.value] == data[..mismatch.value]
  {
    var i := 0;
    while i < ECHO_SIZE
      invariant 0 <= i <= ECHO_SIZE && echo[..i] == data[..i]
    {
      if echo[i] != data[i] {
        return Some(i);
      }
      i := i + 1;
    }
    assert echo == echo[..i] && data == data[..i];
    return None;
  }

  // ---------------------------------------------------------------------
  // Starting the DIO test
  // ---------------------------------------------------------------------

  /** `phase = ((divider + 1) // 2) - 1`: Python's `//` rounds down, so
      phase + 1 is the largest integer whose double is at most divider + 1. */
  function Phase(divider: int): (p: int)
    ensures 2 * (p + 1) <= divider + 1 < 2 * (p + 2)
  {
    (divider + 1) / 2 - 1
  }

  /** The settings word of `StartDio`: the mode in bits 16-17, the phase in
      bits 8-15, the divider in bits 0-7. Python's `&` keeps the low bits of
      a negative operand in two's complement, i.e. its remainder. */
  function SettingsWord(mode: int, phase: int, divider: int): (w: nat)
    ensures w < 0x4_0000
    ensures w == (mode % 4) * 0x1_0000 + (phase % 0x100) * 0x100 + divider % 0x100
    ensures w / 0x1_0000 == mode % 4 && (w / 0x100) % 0x100 == phase % 0x100 && w % 0x100 == divider % 0x100
  {
    Pow2Constants();
    var m, p, d := MaskInt(mode, 2), MaskInt(phase, 8), MaskInt(divider, 8);
    PackThreeFields(m, p, d);
    ThreeFields(m, p, d);
    Or(Or(Shl(m, 16), Shl(p, 8)), d)
  }

  /** A divider of 0 gives phase -1, which reaches the board as 0xff. */
  lemma DividerZeroPhase(mode: int)
    ensures Phase(0) == -1
    ensures (SettingsWord(mode, Phase(0), 0) / 0x100) % 0x100 == 0xff
  {
    var p := Phase(0);
    assert p == -1 && p % 0x100 == 0xff;
    var w := SettingsWord(mode, p, 0);
    assert (w / 0x100) % 0x100 == p % 0x100;
  }

  /** `StartDio(port, mode, phase, divider)`: write the settings word, then
      the `CheckDio` read of the status register; 11 + 3 bytes. */
  function StartDioRequest(mode: int, phase: int, divider: int): (r: seq<byte>)
    ensures |r| == 14 && r[0] == 'w' as byte && r[11] == 'r' as byte
    ensures ParseHex(r[1..3]) == Some(DIO_SETTINGS_ADDR) && ParseHex(r[3..11]) == Some(SettingsWord(mode, phase, divider))
    ensures ParseHex(r[12..]) == Some(DIO_STATUS_ADDR)
  {
    WriteReadRequest(DIO_SETTINGS_ADDR, SettingsWord(mode, phase, divider), DIO_STATUS_ADDR)
  }

  /** A write request followed by a read request, each within its widths. */
  function WriteReadRequest(addr: nat, value: nat, readAddr: nat): (r: seq<byte>)
    requires addr < 0x100 && value < U32_LIMIT && readAddr < 0x100
    ensures |r| == 14 && r[0] == 'w' as byte && r[11] == 'r' as byte
    ensures ParseHex(r[1..3]) == Some(addr) && ParseHex(r[3..11]) == Some(value) && ParseHex(r[12..]) == Some(readAddr)
  {
    var w, rd := WriteRequest(addr, value), ReadRequest(readAddr);
    WriteReadSlices(w, rd);
    w + rd
  }

  /** Where the parts of an 11-byte write and a 3-byte read sit in their
      concatenation. */
  lemma WriteReadSlices(w: seq<byte>, rd: seq<byte>)
    requires |w| == 11 && |rd| == 3
    ensures var r := w + rd;
      |r| == 14 && r[0] == w[0] && r[11] == rd[0]
      && r[1..3] == w[1..3] && r[3..11] == w[3..] && r[12..] == rd[1..]
  {
    var r := w + rd;
    assert r[1..3] == w[1..3] && r[3..11] == w[3..] && r[12..] == rd[1..];
  }

  // ---------------------------------------------------------------------
  // run_test
  // ---------------------------------------------------------------------

  /** The GUI settings `run_test` reads (the port name is not modelled). */
  datatype Settings = Settings(
    dioMode: int, dioDivider: int,
    enableXadc: bool, enableFlashId: bool, enableFlashVerify: bool, enableUartEcho: bool,
    enableDioTest: bool, enableMouse: bool, enableBramTest: bool)
  {
    predicate Enabled(c: Check)
    {
      match c
      case XadcCheck => enableXadc
      case FlashIdCheck => enableFlashId
      case FlashVerifyCheck => enableFlashVerify
      case EchoCheck => enableUartEcho
      case DioCheck => enableDioTest
      case MouseCheck => enableMouse
      case BramCheck => enableBramTest
    }
  }

  /** What the host does, in order: a `done_callback()` poll, the QSPI write
      of the image for `seed`, programming the FPGA, opening the port,
      `StartDio` with its settings word, each check it issues, and the
      ValueError an `int(…, 16)` raises on a reply that is not hex, which
      nothing catches. */
  datatype Action = PollDone | WriteQspi(seed: nat) | ProgramDevice | OpenPort | StartDio(settings: nat) | Issue(check: Check)
                  | ParseError

  function When(enabled: bool, c: Check): seq<Action>
  {
    if enabled then [Issue(c)] else []
  }

  /** The check of rank k. */
  function CheckOfRank(k: nat): (c: Check)
    requires k < 7
    ensures c.Rank() == k
  {
    if k == 0 then XadcCheck
    else if k == 1 then FlashIdCheck
    else if k == 2 then FlashVerifyCheck
    else if k == 3 then EchoCheck
    else if k == 4 then DioCheck
    else if k == 5 then MouseCheck
    else BramCheck
  }

  /** The first k steps of a pass of the polling loop: each enabled check
      of rank below k, in rank order. */
  function CycleUpTo(cfg: Settings, k: nat): seq<Action>
    requires k <= 7
  {
    if k == 0 then []
    else
      var c := CheckOfRank(k - 1);
      CycleUpTo(cfg, k - 1) + When(cfg.Enabled(c), c)
  }

  /** One pass of the `while not done_callback()` loop. */
  function Cycle(cfg: Settings): seq<Action>
  {
    CycleUpTo(cfg, 7)
  }

  lemma {:induction false} CycleUpToContents(cfg: Settings, k: nat)
    requires k <= 7
    ensures forall i :: 0 <= i < |CycleUpTo(cfg, k)| ==> CycleUpTo(cfg, k)[i].Issue? && CycleUpTo(cfg, k)[i].check.Rank() < k
    ensures forall i, j :: 0 <= i < j < |CycleUpTo(cfg, k)| ==> CycleUpTo(cfg, k)[i].check.Rank() < CycleUpTo(cfg, k)[j].check.Rank()
    ensures forall a :: a in CycleUpTo(cfg, k) <==> a.Issue? && a.check.Rank() < k && cfg.Enabled(a.check)
  {
    if k > 0 {
      CycleUpToContents(cfg, k - 1);
      var s := CycleUpTo(cfg, k - 1);
      var t := CycleUpTo(cfg, k);
      assert forall i :: 0 <= i < |s| ==> t[i] == s[i];
      forall a
        ensures a in t <==> a.Issue? && a.check.Rank() < k && cfg.Enabled(a.check)
      {
        if a.Issue? && a.check.Rank() == k - 1 {
          assert a.check == CheckOfRank(k - 1);
        }
      }
    }
  }

  /** A pass issues nothing but checks, exactly the enabled ones, in the
      fixed order XADC, flash ID, flash verify, echo, DIO, mouse, BRAM (so
      each at most once). */
  lemma CycleContents(cfg: Settings)
    ensures forall i :: 0 <= i < |Cycle(cfg)| ==> Cycle(cfg)[i].Issue?
    ensures forall i, j :: 0 <= i < j < |Cycle(cfg)| ==> Cycle(cfg)[i].check.Rank() < Cycle(cfg)[j].check.Rank()
    ensures forall a :: a in Cycle(cfg) <==> a.Issue? && cfg.Enabled(a.check)
  {
    CycleUpToContents(cfg, 7);
  }

  /** `while not done_callback()`: the first poll, then a cycle and a poll
      per pass. */
  function Polling(cfg: Settings, passes: nat): seq<Action>
  {
    if passes == 0 then [PollDone] else Polling(cfg, passes - 1) + (Cycle(cfg) + [PollDone])
  }

  /** Opening the port and starting the DIO test with the GUI's mode and
      divider, after the two tool runs. */
  function Setup(cfg: Settings, seed: nat): seq<Action>
  {
    [PollDone, WriteQspi(seed), PollDone, ProgramDevice, OpenPort,
     StartDio(SettingsWord(cfg.dioMode, Phase(cfg.dioDivider), cfg.dioDivider))]
  }

  /** The actions of `run_test` when the QSPI write reports `qspiOk`, the
      FPGA programming `programOk`, and `done_callback()` first answers True
      on poll number `pressedAfter` (counting from 0). */
  function RunTrace(cfg: Settings, seed: nat, qspiOk: bool, programOk: bool, pressedAfter: nat): (t: seq<Action>)
    ensures |t| >= 1 && t[0] == PollDone && ParseError !in t
  {
    if pressedAfter == 0 then [PollDone]
    else if !qspiOk then [PollDone, WriteQspi(seed)]
    else if pressedAfter == 1 then [PollDone, WriteQspi(seed), PollDone]
    else if !programOk then [PollDone, WriteQspi(seed), PollDone, ProgramDevice]
    else
      PollingMembers(cfg, pressedAfter - 2);
      Setup(cfg, seed) + Polling(cfg, pressedAfter - 2)
  }

  /** The GUI's stop flag as `done_callback()` reads it: False for the
      first `pressedAfter` polls and True from then on. */
  class StopButton {
    const pressedAfter: nat
    var polls: nat

    constructor (pressedAfter: nat)
      ensures this.pressedAfter == pressedAfter && polls == 0
    {
      this.pressedAfter := pressedAfter;
      polls := 0;
    }

    method Done() returns (done: bool)
      modifies this
      ensures polls == old(polls) + 1
      ensures done <==> old(polls) >= pressedAfter
    {
      done := polls >= pressedAfter;
      polls := polls + 1;
    }
  }

  // ---------------------------------------------------------------------
  // Replies that do not parse
  // ---------------------------------------------------------------------

  /** `replies(p, k)`: the bytes `port.read` returns to the check of rank k
      in pass p of the polling loop. The port is opened without a timeout,
      so each read returns exactly the number of bytes the check asks for. */
  type Replies = f: (nat, nat) -> seq<byte> | forall p: nat, k: nat :: k < 7 ==> |f(p, k)| == CheckOfRank(k).ReplyLength()
    witness (p: nat, k: nat) => if k < 7 then seq(CheckOfRank(k).ReplyLength(), i => '0' as byte) else []

  /** Whether every `int(…, 16)` of the check accepts what it read (the
      echo test parses nothing). */
  predicate ReplyParses(c: Check, reply: seq<byte>)
    requires |reply| == c.ReplyLength()
  {
    match c
    case XadcCheck => ReadXadc(reply).Some?
    case FlashIdCheck => FlashReadId(reply).Some?
    case FlashVerifyCheck => FlashRead(reply).Some?
    case EchoCheck => true
    case DioCheck => CheckDio(reply).Some?
    case MouseCheck => CheckMouse(reply).Some?
    case BramCheck => CheckBram(reply).Some?
  }

  /** The check of rank k is enabled and raises in pass p. */
  predicate Fails(cfg: Settings, replies: Replies, p: nat, k: nat)
    requires k < 7
  {
    cfg.Enabled(CheckOfRank(k)) && !ReplyParses(CheckOfRank(k), replies(p, k))
  }

  /** The least index below n at which f holds. */
  function FirstOf(f: nat -> bool, n: nat): (r: Option<nat>)
    ensures r.Some? ==> r.value < n && f(r.value)
    ensures forall j :: 0 <= j < n && (r.None? || j < r.value) ==> !f(j)
  {
    if n == 0 then None
    else match FirstOf(f, n - 1)
      case Some(j) => Some(j)
      case None => if f(n - 1) then Some(n - 1) else None
  }

  /** An index where f holds after none did is the least of every longer
      range. */
  lemma {:induction false} FirstOfStays(f: nat -> bool, k: nat, m: nat)
    requires k < m && FirstOf(f, k).None? && f(k)
    ensures FirstOf(f, m) == Some(k)
    decreases m
  {
    if m > k + 1 {
      FirstOfStays(f, k, m - 1);
    }
  }

  /** Which checks of pass p raise. */
  function FailsIn(cfg: Settings, replies: Replies, p: nat): nat -> bool
  {
    (k: nat) => k < 7 && Fails(cfg, replies, p, k)
  }

  /** The rank of the first check below rank k that raises in pass p. */
  function FailingRank(cfg: Settings, replies: Replies, p: nat, k: nat): (r: Option<nat>)
    requires k <= 7
    ensures r.Some? ==> r.value < k && Fails(cfg, replies, p, r.value)
    ensures forall j :: 0 <= j < k && (r.None? || j < r.value) ==> !Fails(cfg, replies, p, j)
  {
    var r := FirstOf(FailsIn(cfg, replies, p), k);
    assert forall j: nat :: j < 7 ==> FailsIn(cfg, replies, p)(j) == Fails(cfg, replies, p, j);
    r
  }

  /** Pass p as far as it gets: the whole cycle, or the checks up to the
      first that raises and the error. */
  function PassOf(cfg: Settings, replies: Replies, p: nat): seq<Action>
  {
    match FailingRank(cfg, replies, p, 7)
    case None => Cycle(cfg)
    case Some(k) => CycleUpTo(cfg, k + 1) + [ParseError]
  }

  /** Some check raises in pass p. */
  predicate Raises(cfg: Settings, replies: Replies, p: nat)
  {
    FailingRank(cfg, replies, p, 7).Some?
  }

  /** Which passes raise. */
  function RaisesIn(cfg: Settings, replies: Replies): nat -> bool
  {
    (p: nat) => Raises(cfg, replies, p)
  }

  /** The first pass below n in which a check raises. */
  function FailingPass(cfg: Settings, replies: Replies, n: nat): (r: Option<nat>)
    ensures r.Some? ==> r.value < n && Raises(cfg, replies, r.value)
    ensures forall p :: 0 <= p < n && (r.None? || p < r.value) ==> !Raises(cfg, replies, p)
  {
    var r := FirstOf(RaisesIn(cfg, replies), n);
    assert forall p: nat :: RaisesIn(cfg, replies)(p) == Raises(cfg, replies, p);
    r
  }

  /** The polling loop over n passes when a raising check ends it early. */
  function PollingWith(cfg: Settings, replies: Replies, n: nat): seq<Action>
  {
    match FailingPass(cfg, replies, n)
    case None => Polling(cfg, n)
    case Some(p) => Polling(cfg, p) + PassOf(cfg, replies, p)
  }

  /** The actions of `run_test` given what the board answers: `dioReply` to
      the status read of `StartDio`, `replies` in the polling loop. */
  function RunWith(cfg: Settings, seed: nat, qspiOk: bool, programOk: bool, pressedAfter: nat,
                   dioReply: seq<byte>, replies: Replies): seq<Action>
    requires |dioReply| == DioCheck.ReplyLength()
  {
    if !(qspiOk && programOk && pressedAfter >= 2) then RunTrace(cfg, seed, qspiOk, programOk, pressedAfter)
    else if !ReplyParses(DioCheck, dioReply) then Setup(cfg, seed) + [ParseError]
    else Setup(cfg, seed) + PollingWith(cfg, replies, pressedAfter - 2)
  }

  /** A check that raises in pass p is the first to do so in every longer
      stretch of that pass. */
  lemma FailingRankFirst(cfg: Settings, replies: Replies, p: nat, k: nat, m: nat)
    requires k < m <= 7 && FailingRank(cfg, replies, p, k).None? && Fails(cfg, replies, p, k)
    ensures FailingRank(cfg, replies, p, m) == Some(k)
  {
    FirstOfStays(FailsIn(cfg, replies, p), k, m);
  }

  /** A pass that raises after clean passes is the first failing pass of
      every longer run. */
  lemma FailingPassFirst(cfg: Settings, replies: Replies, p: nat, n: nat)
    requires p < n && FailingPass(cfg, replies, p).None? && Raises(cfg, replies, p)
    ensures FailingPass(cfg, replies, n) == Some(p)
  {
    FirstOfStays(RaisesIn(cfg, replies), p, n);
  }

  /** One `if enable_…: …` line of pass p of the polling loop: the check of
      rank k when it is enabled, which raises when its reply does not
      parse. */
  method IssueIfEnabled(cfg: Settings, replies: Replies, p: nat, k: nat, cycle: seq<Action>)
    returns (r: seq<Action>, failed: bool)
    requires k < 7 && cycle == CycleUpTo(cfg, k) && FailingRank(cfg, replies, p, k).None?
    ensures failed <==> Fails(cfg, replies, p, k)
    ensures !failed ==> r == CycleUpTo(cfg, k + 1) && FailingRank(cfg, replies, p, k + 1).None?
    ensures failed ==> r == PassOf(cfg, replies, p) && ParseError in r
  {
    r := cycle;
    failed := false;
    var c := CheckOfRank(k);
    if cfg.Enabled(c) {
      r := r + [Issue(c)];
      if !ReplyParses(c, replies(p, k)) {
        failed := true;
        FailingRankFirst(cfg, replies, p, k, 7);
        r := r + [ParseError];
      }
    }
  }

  /** The body of the polling loop in pass p: each enabled check in turn,
      until one raises. */
  method IssueCycle(cfg: Settings, replies: Replies, p: nat) returns (cycle: seq<Action>, failed: bool)
    ensures failed <==> Raises(cfg, replies, p)
    ensures failed ==> ParseError in cycle
    ensures cycle == PassOf(cfg, replies, p)
  {
    cycle, failed := IssueIfEnabled(cfg, replies, p, 0, []);
    if failed { return; }
    cycle, failed := IssueIfEnabled(cfg, replies, p, 1, cycle);
    if failed { return; }
    cycle, failed := IssueIfEnabled(cfg, replies, p, 2, cycle);
    if failed { return; }
    cycle, failed := IssueIfEnabled(cfg, replies, p, 3, cycle);
    if failed { return; }
    cycle, failed := IssueIfEnabled(cfg, replies, p, 4, cycle);
    if failed { return; }
    cycle, failed := IssueIfEnabled(cfg, replies, p, 5, cycle);
    if failed { return; }
    cycle, failed := IssueIfEnabled(cfg, replies, p, 6, cycle);
  }

  /** `while not done_callback(): …`, entered with n polls left before
      the stop button is pressed; a check that raises ends it (`failed`). */
  method PollUntilDone(cfg: Settings, replies: Replies, stop: StopButton, ghost n: nat) returns (polling: seq<Action>, failed: bool)
    requires stop.polls <= stop.pressedAfter && n == stop.pressedAfter - stop.polls
    modifies stop
    ensures polling == PollingWith(cfg, replies, n)
    ensures failed <==> FailingPass(cfg, replies, n).Some?
    ensures failed ==> ParseError in polling
    ensures stop.polls <= stop.pressedAfter + 1
    ensures !failed ==> stop.polls == stop.pressedAfter + 1
  {
    polling := [PollDone];
    failed := false;
    var done := stop.Done();
    var passes := 0;
    while !done
      invariant stop.polls == old(stop.polls) + passes + 1 <= stop.pressedAfter + 1
      invariant done <==> passes == n
      invariant polling == Polling(cfg, passes) && FailingPass(cfg, replies, passes).None?
      decreases n - passes
    {
      var cycle;
      cycle, failed := IssueCycle(cfg, replies, passes);
      if failed {
        FailingPassFirst(cfg, replies, passes, n);
        PollingWithFailing(cfg, replies, passes, n);
        polling := polling + cycle;
        return;
      }
      PollingNext(cfg, replies, passes);
      polling := polling + (cycle + [PollDone]);
      done := stop.Done();
      passes := passes + 1;
    }
    PollingWithClean(cfg, replies, n);
  }

  /** A clean pass extends the polling loop by the whole pass and a poll. */
  lemma PollingNext(cfg: Settings, replies: Replies, p: nat)
    requires FailingPass(cfg, replies, p).None? && !Raises(cfg, replies, p)
    ensures FailingPass(cfg, replies, p + 1).None?
    ensures Polling(cfg, p + 1) == Polling(cfg, p) + (PassOf(cfg, replies, p) + [PollDone])
  {
    CleanPass(cfg, replies, p);
  }

  /** A pass without a raising check is the whole cycle, and the passes so
      far are still clean after it. */
  lemma CleanPass(cfg: Settings, replies: Replies, p: nat)
    requires FailingPass(cfg, replies, p).None? && !Raises(cfg, replies, p)
    ensures FailingPass(cfg, replies, p + 1).None?
    ensures PassOf(cfg, replies, p) == Cycle(cfg)
  {
  }

  /** Without a raising check the loop is the plain polling loop. */
  lemma PollingWithClean(cfg: Settings, replies: Replies, n: nat)
    requires FailingPass(cfg, replies, n).None?
    ensures PollingWith(cfg, replies, n) == Polling(cfg, n)
  {
  }

  /** `run_test`: the QSPI write succeeds when Vivado exits with 0, the
      FPGA programming when its script exists and Vivado exits with 0; the
      run ends early where the board's answer to `StartDio` or to a check
      does not parse. */
  method RunTest(cfg: Settings, seed: u32, qspiExit: int, scriptExists: bool, programExit: int,
                 dioReply: seq<byte>, replies: Replies, stop: StopButton)
    returns (trace: seq<Action>)
    requires stop.polls == 0 && |dioReply| == DioCheck.ReplyLength()
    modifies stop
    ensures trace == RunWith(cfg, seed, qspiExit == 0, scriptExists && programExit == 0, stop.pressedAfter, dioReply, replies)
    ensures stop.polls <= stop.pressedAfter + 1
    ensures ParseError !in trace && qspiExit == 0 && scriptExists && programExit == 0 ==> stop.polls == stop.pressedAfter + 1
  {
    trace := [PollDone];
    var done := stop.Done();
    if done { return; }
    trace := trace + [WriteQspi(seed)];
    if qspiExit != 0 { return; }
    trace := trace + [PollDone];
    done := stop.Done();
    if done { return; }
    trace := trace + [ProgramDevice];
    if !scriptExists || programExit != 0 { return; }
    assert trace == [PollDone, WriteQspi(seed), PollDone, ProgramDevice];
    var session := Session(cfg, seed, dioReply, replies, stop);
    trace := trace + session;
  }

  /** The `with ser.Serial(…)` block of `run_test`, entered after two polls
      of the stop button: open the port, start the DIO test, then the
      polling loop unless the status read of `StartDio` does not parse. */
  method Session(cfg: Settings, seed: nat, dioReply: seq<byte>, replies: Replies, stop: StopButton)
    returns (session: seq<Action>)
    requires stop.polls == 2 <= stop.pressedAfter && |dioReply| == DioCheck.ReplyLength()
    modifies stop
    ensures [PollDone, WriteQspi(seed), PollDone, ProgramDevice] + session
      == RunWith(cfg, seed, true, true, stop.pressedAfter, dioReply, replies)
    ensures stop.polls <= stop.pressedAfter + 1
    ensures ParseError !in session ==> stop.polls == stop.pressedAfter + 1
  {
    var phase := Phase(cfg.dioDivider);
    var start := [OpenPort, StartDio(SettingsWord(cfg.dioMode, phase, cfg.dioDivider))];
    var tools := [PollDone, WriteQspi(seed), PollDone, ProgramDevice];
    SetupParts(cfg, seed);
    ghost var n: nat := stop.pressedAfter - 2;
    var rest;
    if !ReplyParses(DioCheck, dioReply) {
      rest := [ParseError];
      DioRaises(cfg, seed, stop.pressedAfter, dioReply, replies);
      Resplit(tools, start, rest, Setup(cfg, seed), [ParseError], RunWith(cfg, seed, true, true, stop.pressedAfter, dioReply, replies));
    } else {
      var failed;
      rest, failed := PollUntilDone(cfg, replies, stop, n);
      DioParses(cfg, seed, stop.pressedAfter, n, dioReply, replies);
      Resplit(tools, start, rest, Setup(cfg, seed), PollingWith(cfg, replies, n),
              RunWith(cfg, seed, true, true, stop.pressedAfter, dioReply, replies));
    }
    session := start + rest;
  }

  /** After both tools succeeded and the stop button let the loop start, a
      status read of `StartDio` that does not parse ends the run. */
  lemma DioRaises(cfg: Settings, seed: nat, pressedAfter: nat, dioReply: seq<byte>, replies: Replies)
    requires pressedAfter >= 2 && |dioReply| == DioCheck.ReplyLength() && !ReplyParses(DioCheck, dioReply)
    ensures Setup(cfg, seed) + [ParseError] == RunWith(cfg, seed, true, true, pressedAfter, dioReply, replies)
  {
  }

  /** After both tools succeeded and the stop button let the loop start, a
      status read of `StartDio` that parses leads to the polling loop. */
  lemma DioParses(cfg: Settings, seed: nat, pressedAfter: nat, n: nat, dioReply: seq<byte>, replies: Replies)
    requires n == pressedAfter - 2 && |dioReply| == DioCheck.ReplyLength() && ReplyParses(DioCheck, dioReply)
    ensures Setup(cfg, seed) + PollingWith(cfg, replies, n) == RunWith(cfg, seed, true, true, pressedAfter, dioReply, replies)
  {
    var whole := RunWith(cfg, seed, true, true, pressedAfter, dioReply, replies);
    assert whole == Setup(cfg, seed) + PollingWith(cfg, replies, pressedAfter - 2);
    SamePolling(cfg, replies, pressedAfter, n);
    SameTail(Setup(cfg, seed), PollingWith(cfg, replies, pressedAfter - 2), PollingWith(cfg, replies, n), whole);
  }

  /** The loop after the two polls that precede it. */
  lemma SamePolling(cfg: Settings, replies: Replies, pressedAfter: nat, n: nat)
    requires n == pressedAfter - 2
    ensures PollingWith(cfg, replies, pressedAfter - 2) == PollingWith(cfg, replies, n)
  {
  }

  /** The setup is the two tool runs, each after a poll, then the port and
      `StartDio`. */
  lemma SetupParts(cfg: Settings, seed: nat)
    ensures [PollDone, WriteQspi(seed), PollDone, ProgramDevice]
      + [OpenPort, StartDio(SettingsWord(cfg.dioMode, Phase(cfg.dioDivider), cfg.dioDivider))] == Setup(cfg, seed)
  {
  }

  /** Concatenation regrouped, proved away from the definitions it is used on. */
  lemma Regroup<T>(a: seq<T>, b: seq<T>, c: seq<T>)
    ensures a + b + c == a + (b + c)
  {
  }

  /** Equal tails make equal concatenations. */
  lemma SameTail<T>(head: seq<T>, a: seq<T>, b: seq<T>, whole: seq<T>)
    requires a == b && whole == head + a
    ensures head + b == whole
  {
  }

  /** A whole split as `setup + tail`, with `setup` split as `a + b` and
      `rest` equal to `tail`. */
  lemma Resplit<T>(a: seq<T>, b: seq<T>, rest: seq<T>, setup: seq<T>, tail: seq<T>, whole: seq<T>)
    requires a + b == setup && rest == tail && setup + tail == whole
    ensures a + (b + rest) == whole
  {
    Regroup(a, b, rest);
  }

  lemma {:induction false} PollingLength(cfg: Settings, n: nat)
    ensures |Polling(cfg, n)| == n * (|Cycle(cfg)| + 1) + 1
  {
    if n > 0 {
      PollingLength(cfg, n - 1);
      calc {
        |Polling(cfg, n)|;
        (n - 1) * (|Cycle(cfg)| + 1) + 1 + (|Cycle(cfg)| + 1);
        { assert (n - 1) * (|Cycle(cfg)| + 1) + (|Cycle(cfg)| + 1) == n * (|Cycle(cfg)| + 1); }
        n * (|Cycle(cfg)| + 1) + 1;
      }
    }
  }

  lemma {:induction false} PollingMembers(cfg: Settings, n: nat)
    ensures forall a :: a in Polling(cfg, n) <==> a == PollDone || (n > 0 && a.Issue? && cfg.Enabled(a.check))
  {
    if n > 0 {
      PollingMembers(cfg, n - 1);
      CycleContents(cfg);
    }
  }


  /** A check is issued only once both tool runs have succeeded, the port
      is open and the DIO test started, and the stop button has not been
      pressed before the loop; then every enabled check is issued. */
  lemma RunTraceIssues(cfg: Settings, seed: nat, qspiOk: bool, programOk: bool, pressedAfter: nat, c: Check)
    ensures Issue(c) in RunTrace(cfg, seed, qspiOk, programOk, pressedAfter)
      <==> qspiOk && programOk && pressedAfter >= 3 && cfg.Enabled(c)
    ensures OpenPort in RunTrace(cfg, seed, qspiOk, programOk, pressedAfter) <==> qspiOk && programOk && pressedAfter >= 2
    ensures ProgramDevice in RunTrace(cfg, seed, qspiOk, programOk, pressedAfter) <==> qspiOk && pressedAfter >= 2
    ensures WriteQspi(seed) in RunTrace(cfg, seed, qspiOk, programOk, pressedAfter) <==> pressedAfter >= 1
  {
    if qspiOk && programOk && pressedAfter >= 2 {
      EnteredRunIssues(cfg, seed, qspiOk, programOk, pressedAfter, c);
    } else {
      EarlyRunIssues(cfg, seed, qspiOk, programOk, pressedAfter, c);
    }
  }

  /** `RunTraceIssues` for a run that enters the `with` block. */
  lemma EnteredRunIssues(cfg: Settings, seed: nat, qspiOk: bool, programOk: bool, pressedAfter: nat, c: Check)
    requires qspiOk && programOk && pressedAfter >= 2
    ensures Issue(c) in RunTrace(cfg, seed, qspiOk, programOk, pressedAfter)
      <==> qspiOk && programOk && pressedAfter >= 3 && cfg.Enabled(c)
    ensures OpenPort in RunTrace(cfg, seed, qspiOk, programOk, pressedAfter) <==> qspiOk && programOk && pressedAfter >= 2
    ensures ProgramDevice in RunTrace(cfg, seed, qspiOk, programOk, pressedAfter) <==> qspiOk && pressedAfter >= 2
    ensures WriteQspi(seed) in RunTrace(cfg, seed, qspiOk, programOk, pressedAfter) <==> pressedAfter >= 1
  {
    RunTraceMembers(cfg, seed, pressedAfter);
    var setup := Setup(cfg, seed);
    var trace := RunTrace(cfg, seed, qspiOk, programOk, pressedAfter);
    assert Issue(c) !in setup;
    assert OpenPort == trace[4] && ProgramDevice == trace[3] && WriteQspi(seed) == trace[1];
  }

  /** `RunTraceIssues` for a run that stops before the `with` block. */
  lemma EarlyRunIssues(cfg: Settings, seed: nat, qspiOk: bool, programOk: bool, pressedAfter: nat, c: Check)
    requires !(qspiOk && programOk && pressedAfter >= 2)
    ensures Issue(c) in RunTrace(cfg, seed, qspiOk, programOk, pressedAfter)
      <==> qspiOk && programOk && pressedAfter >= 3 && cfg.Enabled(c)
    ensures OpenPort in RunTrace(cfg, seed, qspiOk, programOk, pressedAfter) <==> qspiOk && programOk && pressedAfter >= 2
    ensures ProgramDevice in RunTrace(cfg, seed, qspiOk, programOk, pressedAfter) <==> qspiOk && pressedAfter >= 2
    ensures WriteQspi(seed) in RunTrace(cfg, seed, qspiOk, programOk, pressedAfter) <==> pressedAfter >= 1
  {
  }

  /** What a run that enters the loop contains. */
  lemma RunTraceMembers(cfg: Settings, seed: nat, pressedAfter: nat)
    requires pressedAfter >= 2
    ensures forall a ::
              a in RunTrace(cfg, seed, true, true, pressedAfter)
              <==> (a in Setup(cfg, seed) || a == PollDone || (pressedAfter >= 3 && a.Issue? && cfg.Enabled(a.check)))
  {
    PollingMembers(cfg, pressedAfter - 2);
  }

  /** Each tool run comes straight after a poll of the stop button. */
  lemma ToolsFollowPolls(cfg: Settings, seed: nat, qspiOk: bool, programOk: bool, pressedAfter: nat)
    ensures var trace := RunTrace(cfg, seed, qspiOk, programOk, pressedAfter);
      forall i :: 0 <= i < |trace| && trace[i] in {WriteQspi(seed), ProgramDevice} ==> 0 < i && trace[i - 1] == PollDone
  {
    var trace := RunTrace(cfg, seed, qspiOk, programOk, pressedAfter);
    if qspiOk && programOk && pressedAfter >= 2 {
      var polling := Polling(cfg, pressedAfter - 2);
      PollingMembers(cfg, pressedAfter - 2);
      forall i | 6 <= i < |trace|
        ensures trace[i] == PollDone || trace[i].Issue?
      {
        assert trace[i] == polling[i - 6];
        assert polling[i - 6] in polling;
      }
    }
  }


  lemma {:induction false} CycleUpToPrefix(cfg: Settings, k: nat, m: nat)
    requires k <= m <= 7
    ensures CycleUpTo(cfg, k) <= CycleUpTo(cfg, m)
    decreases m
  {
    if k < m {
      CycleUpToPrefix(cfg, k, m - 1);
    }
  }

  lemma {:induction false} PollingPrefix(cfg: Settings, p: nat, n: nat)
    requires p <= n
    ensures Polling(cfg, p) <= Polling(cfg, n)
    decreases n
  {
    if p < n {
      PollingPrefix(cfg, p, n - 1);
    }
  }

  /** A check that raises cuts the polling loop short: the error is the
      last action, it follows the check whose reply did not parse, and what
      precedes it is a proper prefix of the loop without errors. */
  lemma PollingCutShort(cfg: Settings, replies: Replies, p: nat, n: nat)
    requires FailingPass(cfg, replies, n) == Some(p)
    ensures var t := PollingWith(cfg, replies, n);
      |t| >= 2 && t[|t| - 1] == ParseError && t[|t| - 2].Issue? && t[..|t| - 1] < Polling(cfg, n)
  {
    PollingWithFailing(cfg, replies, p, n);
    var k := PassOfFailing(cfg, replies, p);
    CutAtCheck(cfg, p, k, n);
  }

  /** The loop that raises in pass p: the passes before it, then that pass. */
  lemma PollingWithFailing(cfg: Settings, replies: Replies, p: nat, n: nat)
    requires FailingPass(cfg, replies, n) == Some(p)
    ensures p < n && Raises(cfg, replies, p)
    ensures PollingWith(cfg, replies, n) == Polling(cfg, p) + PassOf(cfg, replies, p)
  {
  }

  /** A pass that raises stops after the check of rank k that raised. */
  lemma PassOfFailing(cfg: Settings, replies: Replies, p: nat) returns (k: nat)
    requires Raises(cfg, replies, p)
    ensures k < 7 && cfg.Enabled(CheckOfRank(k))
    ensures PassOf(cfg, replies, p) == CycleUpTo(cfg, k + 1) + [ParseError]
  {
    k := FailingRank(cfg, replies, p, 7).value;
  }

  /** `PollingCutShort` for an enabled check of rank k in pass p. */
  lemma CutAtCheck(cfg: Settings, p: nat, k: nat, n: nat)
    requires p < n && k < 7 && cfg.Enabled(CheckOfRank(k))
    ensures var t := Polling(cfg, p) + (CycleUpTo(cfg, k + 1) + [ParseError]);
      |t| >= 2 && t[|t| - 1] == ParseError && t[|t| - 2].Issue? && t[..|t| - 1] < Polling(cfg, n)
  {
    var c := CheckOfRank(k);
    CycleCut(cfg, k);
    PollingStep(cfg, p, n);
    CutShort(Polling(cfg, p), CycleUpTo(cfg, k + 1), CycleUpTo(cfg, k), Issue(c), ParseError, Cycle(cfg), PollDone, Polling(cfg, n));
  }

  lemma CycleCut(cfg: Settings, k: nat)
    requires k < 7 && cfg.Enabled(CheckOfRank(k))
    ensures CycleUpTo(cfg, k + 1) == CycleUpTo(cfg, k) + [Issue(CheckOfRank(k))]
    ensures CycleUpTo(cfg, k + 1) <= Cycle(cfg)
  {
    CycleUpToPrefix(cfg, k + 1, 7);
  }

  lemma PollingStep(cfg: Settings, p: nat, n: nat)
    requires p < n
    ensures Polling(cfg, p) + (Cycle(cfg) + [PollDone]) <= Polling(cfg, n)
  {
    PollingPrefix(cfg, p + 1, n);
  }

  /** Sequence arithmetic for `PollingCutShort`: a run cut inside a block
      of a longer run. */
  lemma CutShort<T>(a: seq<T>, cut: seq<T>, pre: seq<T>, i: T, e: T, c: seq<T>, d: T, whole: seq<T>)
    requires cut == pre + [i] && cut <= c && a + (c + [d]) <= whole
    ensures var t := a + (cut + [e]);
      |t| >= 2 && t[|t| - 1] == e && t[|t| - 2] == i && t[..|t| - 1] < whole
  {
    var t := a + (cut + [e]);
    assert t[..|t| - 1] == a + cut;
    assert a + cut <= a + c;
  }

  /** A reply that does not parse ends `run_test` with the error. The error
      occurs exactly when both tools succeeded, the loop was entered and the
      status read of `StartDio` or some check of an observed pass did not
      parse; a run without it is the run where every reply parses. */
  lemma ParseErrorEndsRun(cfg: Settings, seed: nat, qspiOk: bool, programOk: bool, pressedAfter: nat,
                          dioReply: seq<byte>, replies: Replies)
    requires |dioReply| == DioCheck.ReplyLength()
    ensures var t := RunWith(cfg, seed, qspiOk, programOk, pressedAfter, dioReply, replies);
      (ParseError in t <==>
        qspiOk && programOk && pressedAfter >= 2
        && (!ReplyParses(DioCheck, dioReply) || FailingPass(cfg, replies, pressedAfter - 2).Some?))
    ensures var t := RunWith(cfg, seed, qspiOk, programOk, pressedAfter, dioReply, replies);
      ParseError !in t ==> t == RunTrace(cfg, seed, qspiOk, programOk, pressedAfter)
  {
    if qspiOk && programOk && pressedAfter >= 2 {
      var n := pressedAfter - 2;
      if !ReplyParses(DioCheck, dioReply) {
        DioErrorRun(cfg, seed, pressedAfter, dioReply, replies);
      } else if FailingPass(cfg, replies, n).Some? {
        LoopErrorRun(cfg, seed, pressedAfter, dioReply, replies);
      } else {
        CleanRun(cfg, seed, pressedAfter, dioReply, replies);
      }
    }
  }


  /** In a run that raises, the error is the last action, it follows
      `StartDio` or a check, and what precedes it is a proper prefix of the
      run where every reply parses. */
  lemma ErrorIsLast(cfg: Settings, seed: nat, qspiOk: bool, programOk: bool, pressedAfter: nat,
                    dioReply: seq<byte>, replies: Replies)
    requires |dioReply| == DioCheck.ReplyLength()
    ensures var t := RunWith(cfg, seed, qspiOk, programOk, pressedAfter, dioReply, replies);
      (ParseError in t ==>
        |t| >= 2 && t[|t| - 1] == ParseError && (t[|t| - 2].StartDio? || t[|t| - 2].Issue?)
        && t[..|t| - 1] < RunTrace(cfg, seed, qspiOk, programOk, pressedAfter))
  {
    ParseErrorEndsRun(cfg, seed, qspiOk, programOk, pressedAfter, dioReply, replies);
    if qspiOk && programOk && pressedAfter >= 2 {
      if !ReplyParses(DioCheck, dioReply) {
        DioErrorRun(cfg, seed, pressedAfter, dioReply, replies);
      } else if FailingPass(cfg, replies, pressedAfter - 2).Some? {
        LoopErrorRun(cfg, seed, pressedAfter, dioReply, replies);
      }
    }
  }

  lemma CleanRun(cfg: Settings, seed: nat, pressedAfter: nat, dioReply: seq<byte>, replies: Replies)
    requires |dioReply| == DioCheck.ReplyLength() && pressedAfter >= 2
    requires ReplyParses(DioCheck, dioReply) && FailingPass(cfg, replies, pressedAfter - 2).None?
    ensures RunWith(cfg, seed, true, true, pressedAfter, dioReply, replies) == RunTrace(cfg, seed, true, true, pressedAfter)
  {
  }

  lemma DioErrorRun(cfg: Settings, seed: nat, pressedAfter: nat, dioReply: seq<byte>, replies: Replies)
    requires |dioReply| == DioCheck.ReplyLength() && pressedAfter >= 2 && !ReplyParses(DioCheck, dioReply)
    ensures var t := RunWith(cfg, seed, true, true, pressedAfter, dioReply, replies);
      ParseError in t && |t| >= 2 && t[|t| - 1] == ParseError && t[|t| - 2].StartDio?
      && t[..|t| - 1] < RunTrace(cfg, seed, true, true, pressedAfter)
  {
    var n := pressedAfter - 2;
    assert RunTrace(cfg, seed, true, true, pressedAfter) == Setup(cfg, seed) + Polling(cfg, n);
    EndsAtStartDio(cfg, seed, n);
  }

  lemma LoopErrorRun(cfg: Settings, seed: nat, pressedAfter: nat, dioReply: seq<byte>, replies: Replies)
    requires |dioReply| == DioCheck.ReplyLength() && pressedAfter >= 2 && ReplyParses(DioCheck, dioReply)
    requires FailingPass(cfg, replies, pressedAfter - 2).Some?
    ensures var t := RunWith(cfg, seed, true, true, pressedAfter, dioReply, replies);
      ParseError in t && |t| >= 2 && t[|t| - 1] == ParseError && t[|t| - 2].Issue?
      && t[..|t| - 1] < RunTrace(cfg, seed, true, true, pressedAfter)
  {
    var n := pressedAfter - 2;
    assert RunTrace(cfg, seed, true, true, pressedAfter) == Setup(cfg, seed) + Polling(cfg, n);
    EndsInLoop(cfg, seed, replies, FailingPass(cfg, replies, n).value, n);
  }

  lemma EndsAtStartDio(cfg: Settings, seed: nat, n: nat)
    ensures var t := Setup(cfg, seed) + [ParseError];
      t[|t| - 2].StartDio? && t[..|t| - 1] < Setup(cfg, seed) + Polling(cfg, n)
  {
    var t := Setup(cfg, seed) + [ParseError];
    assert t[..|t| - 1] == Setup(cfg, seed);
    assert |Polling(cfg, n)| >= 1 by {
      PollingLength(cfg, n);
    }
  }

  lemma EndsInLoop(cfg: Settings, seed: nat, replies: Replies, p: nat, n: nat)
    requires FailingPass(cfg, replies, n) == Some(p)
    ensures var t := Setup(cfg, seed) + PollingWith(cfg, replies, n);
      ParseError in t && t[|t| - 1] == ParseError && t[|t| - 2].Issue? && t[..|t| - 1] < Setup(cfg, seed) + Polling(cfg, n)
  {
    PollingCutShort(cfg, replies, p, n);
    var setup, w := Setup(cfg, seed), PollingWith(cfg, replies, n);
    var t := setup + w;
    assert t[|t| - 1] == w[|w| - 1];
    assert t[..|t| - 1] == setup + w[..|w| - 1];
    assert t[|t| - 2] == w[|w| - 2];
  }

  /** With only `enable_flash_id` ticked, each pass sends exactly one
      read-ID command, the single byte 'f'. */
  lemma OnlyFlashId(cfg: Settings, qspiSeed: nat, bramSeed: nat, echoData: seq<byte>)
    requires cfg.enableFlashId
    requires !cfg.enableXadc && !cfg.enableFlashVerify && !cfg.enableUartEcho
    requires !cfg.enableDioTest && !cfg.enableMouse && !cfg.enableBramTest
    ensures Cycle(cfg) == [Issue(FlashIdCheck)]
    ensures Request(FlashIdCheck, qspiSeed, bramSeed, echoData) == ['f' as byte]
  {
    assert CycleUpTo(cfg, 1) == [];
    assert CycleUpTo(cfg, 2) == [Issue(FlashIdCheck)];
    assert CycleUpTo(cfg, 3) == CycleUpTo(cfg, 2);
    assert CycleUpTo(cfg, 4) == CycleUpTo(cfg, 3);
    assert CycleUpTo(cfg, 5) == CycleUpTo(cfg, 4);
    assert CycleUpTo(cfg, 6) == CycleUpTo(cfg, 5);
  }
}
