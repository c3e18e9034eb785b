/** tee_in_buf and tee_out_buf as they lie in memory: little-endian words without padding. */
module Layout {
  import opened Common
  import opened Words
  import opened Transports
  import opened TrustedApp

  /** Every field of tee_in_buf. */
  datatype InBuf = InBuf(cmd: nat, str: Buffer, spiNum: nat, i2cNum: nat, bufLen: nat, buf: Buffer)

  predicate InFits(x: InBuf) {
    && x.cmd < WORD && x.spiNum < WORD && x.i2cNum < WORD && x.bufLen < WORD
    && |x.str| == STR_LEN && |x.buf| == BUF_LEN
  }

  /** Every field of tee_out_buf, words as they are stored. */
  datatype OutBuf = OutBuf(status: nat, sysErr: nat, errLine: Buffer, hwId: nat, taVer: nat, bufLen: nat, buf: Buffer)

  predicate OutBufFits(x: OutBuf) {
    && x.status < WORD && x.sysErr < WORD && x.hwId < WORD && x.taVer < WORD && x.bufLen < WORD
    && |x.errLine| == STR_LEN && |x.buf| == BUF_LEN
  }

  function EncodeIn(x: InBuf): (b: Buffer)
    requires InFits(x)
    ensures |b| == IN_BUF_LEN
  {
    Le(x.cmd, 4) + x.str + Le(x.spiNum, 4) + Le(x.i2cNum, 4) + Le(x.bufLen, 4) + x.buf
  }

  function WordAt(b: Buffer, at: nat): (n: nat)
    requires at + 4 <= |b|
    ensures n < WORD
  {
    LeOfValue(b[at..at + 4]);
    WordSize();
    Value(b[at..at + 4])
  }

  function DecodeIn(b: Buffer): (x: InBuf)
    requires |b| == IN_BUF_LEN
    ensures InFits(x)
  {
    InBuf(WordAt(b, 0), b[4..36], WordAt(b, 36), WordAt(b, 40), WordAt(b, 44), b[48..])
  }

  function EncodeOut(x: OutBuf): (b: Buffer)
    requires OutBufFits(x)
    ensures |b| == OUT_BUF_LEN
  {
    Le(x.status, 4) + Le(x.sysErr, 4) + x.errLine + Le(x.hwId, 4) + Le(x.taVer, 4) + Le(x.bufLen, 4) + x.buf
  }

  function DecodeOut(b: Buffer): (x: OutBuf)
    requires |b| == OUT_BUF_LEN
    ensures OutBufFits(x)
  {
    OutBuf(WordAt(b, 0), WordAt(b, 4), b[8..40], WordAt(b, 40), WordAt(b, 44), WordAt(b, 48), b[52..])
  }

  lemma WordRoundTrip(n: nat)
    requires n < WORD
    ensures Value(Le(n, 4)) == n
  {
    WordSize();
    ValueOfLe(n, 4);
  }

  /** Client and trusted application agree on the request layout: a bijection with the 32816-byte strings. */
  lemma InRoundTrip(x: InBuf)
    requires InFits(x)
    ensures DecodeIn(EncodeIn(x)) == x
  {
    var b := EncodeIn(x);
    assert b[0..4] == Le(x.cmd, 4) && b[4..36] == x.str && b[36..40] == Le(x.spiNum, 4);
    assert b[40..44] == Le(x.i2cNum, 4) && b[44..48] == Le(x.bufLen, 4) && b[48..] == x.buf;
    WordRoundTrip(x.cmd);
    WordRoundTrip(x.spiNum);
    WordRoundTrip(x.i2cNum);
    WordRoundTrip(x.bufLen);
  }

  lemma LeOfWordAt(b: Buffer, at: nat)
    requires at + 4 <= |b|
    ensures Le(WordAt(b, at), 4) == b[at..at + 4]
  {
    LeOfValue(b[at..at + 4]);
  }

  lemma InBytesRoundTrip(b: Buffer)
    requires |b| == IN_BUF_LEN
    ensures EncodeIn(DecodeIn(b)) == b
  {
    LeOfWordAt(b, 0);
    LeOfWordAt(b, 36);
    LeOfWordAt(b, 40);
    LeOfWordAt(b, 44);
    Extend(b, 4, 36);
    Extend(b, 36, 40);
    Extend(b, 40, 44);
    Extend(b, 44, 48);
    var x := DecodeIn(b);
    assert Le(x.cmd, 4) + x.str == b[..36];
    assert Le(x.cmd, 4) + x.str + Le(x.spiNum, 4) + Le(x.i2cNum, 4) + Le(x.bufLen, 4) == b[..48];
    assert b == b[..48] + b[48..];
  }

  lemma OutRoundTrip(x: OutBuf)
    requires OutBufFits(x)
    ensures DecodeOut(EncodeOut(x)) == x
  {
    var b := EncodeOut(x);
    assert b[0..4] == Le(x.status, 4) && b[4..8] == Le(x.sysErr, 4) && b[8..40] == x.errLine;
    assert b[40..44] == Le(x.hwId, 4) && b[44..48] == Le(x.taVer, 4) && b[48..52] == Le(x.bufLen, 4) && b[52..] == x.buf;
    WordRoundTrip(x.status);
    WordRoundTrip(x.sysErr);
    WordRoundTrip(x.hwId);
    WordRoundTrip(x.taVer);
    WordRoundTrip(x.bufLen);
  }

  lemma OutBytesRoundTrip(b: Buffer)
    requires |b| == OUT_BUF_LEN
    ensures EncodeOut(DecodeOut(b)) == b
  {
    LeOfWordAt(b, 0);
    LeOfWordAt(b, 4);
    LeOfWordAt(b, 40);
    LeOfWordAt(b, 44);
    LeOfWordAt(b, 48);
    Extend(b, 4, 8);
    Extend(b, 8, 40);
    Extend(b, 40, 44);
    Extend(b, 44, 48);
    Extend(b, 48, 52);
    var x := DecodeOut(b);
    assert Le(x.status, 4) == b[..4];
    assert Le(x.status, 4) + Le(x.sysErr, 4) + x.errLine == b[..40];
    assert Le(x.status, 4) + Le(x.sysErr, 4) + x.errLine + Le(x.hwId, 4) + Le(x.taVer, 4) + Le(x.bufLen, 4) == b[..52];
    assert b == b[..52] + b[52..];
  }

  // ------------------------------------------------------------------ the reply as the router sees it

  /** Where the fields of a request lie. */
  lemma InOffsets(x: InBuf)
    requires InFits(x)
    ensures var b := EncodeIn(x);
      && |b| == 32816 && b[0..4] == Le(x.cmd, 4) && b[4..36] == x.str && b[36..40] == Le(x.spiNum, 4)
      && b[40..44] == Le(x.i2cNum, 4) && b[44..48] == Le(x.bufLen, 4) && b[48..] == x.buf
  {
  }

  /** Where the fields of a reply lie. */
  predicate LaidOut(x: OutBuf, b: Buffer) {
    && |b| == 32820 && b[0..4] == Le(x.status, 4) && b[4..8] == Le(x.sysErr, 4) && b[8..40] == x.errLine
    && b[40..44] == Le(x.hwId, 4) && b[44..48] == Le(x.taVer, 4) && b[48..52] == Le(x.bufLen, 4) && b[52..] == x.buf
  }

  lemma OutOffsets(x: OutBuf)
    requires OutBufFits(x)
    ensures LaidOut(x, EncodeOut(x))
  {
  }

  function Signed(n: nat): (i: int)
    requires n < WORD
    ensures Int32(i)
  {
    if n < 0x8000_0000 then n else n - WORD
  }

  predicate Int32(i: int) {
    -0x8000_0000 <= i < 0x8000_0000
  }

  function View(x: OutBuf): (out: Out)
    requires OutBufFits(x)
    ensures OutFits(out) && Int32(out.sysErr)
  {
    Out(x.status == 0, Signed(x.sysErr), x.bufLen, x.buf)
  }

  /** Writing the router's results back; the error line is the text of the last error, if there was one. */
  function Store(x: OutBuf, out: Out, errLine: Buffer): (r: OutBuf)
    requires OutBufFits(x) && OutFits(out) && |errLine| == STR_LEN
    ensures OutBufFits(r)
  {
    x.(status := if out.ok then 0 else WORD - 1, sysErr := out.sysErr % WORD,
       errLine := if out.ok then x.errLine else errLine, bufLen := out.bufLen, buf := out.buf)
  }

  lemma ViewOfStore(x: OutBuf, out: Out, errLine: Buffer)
    requires OutBufFits(x) && OutFits(out) && |errLine| == STR_LEN && Int32(out.sysErr)
    ensures View(Store(x, out, errLine)) == out
  {
  }

  /** The reply the router sees, read off the bytes; the error code is a two's complement. */
  lemma ViewExactly(b: Buffer)
    requires |b| == 32820
    ensures var out, code := View(DecodeOut(b)), Value(b[4..8]);
      && (out.ok <==> b[0..4] == [0, 0, 0, 0])
      && (out.sysErr == code || out.sysErr == code - 0x1_0000_0000) && -0x8000_0000 <= out.sysErr < 0x8000_0000
      && out.bufLen == Value(b[48..52]) && out.buf == b[52..]
  {
    FourZeros();
    LeOfValue(b[0..4]);
  }

  /** What the router writes, byte by byte; the fields it does not know stay. */
  predicate Rewritten(b: Buffer, r: Buffer, out: Out, errLine: Buffer) {
    && |b| == |r| == 32820
    && r[0..4] == (if out.ok then [0, 0, 0, 0] else [0xFF, 0xFF, 0xFF, 0xFF])
    && Value(r[4..8]) == (if 0 <= out.sysErr then out.sysErr else out.sysErr + 0x1_0000_0000)
    && r[8..40] == (if out.ok then b[8..40] else errLine) && r[40..48] == b[40..48]
    && Value(r[48..52]) == out.bufLen && r[52..] == out.buf
  }

  lemma StoreExactly(x: OutBuf, out: Out, errLine: Buffer)
    requires OutBufFits(x) && OutFits(out) && |errLine| == STR_LEN && Int32(out.sysErr)
    ensures Rewritten(EncodeOut(x), EncodeOut(Store(x, out, errLine)), out, errLine)
  {
    var y := Store(x, out, errLine);
    OutOffsets(x);
    OutOffsets(y);
    StoredBytes(x, EncodeOut(x), y, EncodeOut(y), out, errLine);
  }

  lemma StoredBytes(x: OutBuf, b: Buffer, y: OutBuf, r: Buffer, out: Out, errLine: Buffer)
    requires OutBufFits(x) && OutFits(out) && |errLine| == STR_LEN && Int32(out.sysErr)
    requires y.status == (if out.ok then 0 else WORD - 1) && y.sysErr == out.sysErr % WORD
    requires y.errLine == (if out.ok then x.errLine else errLine) && y.hwId == x.hwId && y.taVer == x.taVer
    requires y.bufLen == out.bufLen && y.buf == out.buf
    requires LaidOut(x, b) && LaidOut(y, r)
    ensures Rewritten(b, r, out, errLine)
  {
    assert r[40..48] == b[40..48] by {
      assert b[40..48] == b[40..44] + b[44..48] && r[40..48] == r[40..44] + r[44..48];
    }
    StatusWritten(r[0..4], y.status, out.ok);
    CodeWritten(r[4..8], out.sysErr);
    WordRoundTrip(y.bufLen);
  }

  lemma StatusWritten(b: Buffer, status: nat, ok: bool)
    requires b == Le(status, 4) && status == if ok then 0 else WORD - 1
    ensures b == if ok then [0, 0, 0, 0] else [0xFF, 0xFF, 0xFF, 0xFF]
  {
    StatusBytes(status);
  }

  lemma CodeWritten(b: Buffer, code: int)
    requires Int32(code) && b == Le(code % WORD, 4)
    ensures Value(b) == if 0 <= code then code else code + 0x1_0000_0000
  {
    WordRoundTrip(code % WORD);
  }

  lemma StatusBytes(status: nat)
    requires status == 0 || status == 0xFFFF_FFFF
    ensures Le(status, 4) == if status == 0 then [0, 0, 0, 0] else [0xFF, 0xFF, 0xFF, 0xFF]
  {
    FourZeros();
    var ones: Buffer := [0xFF, 0xFF, 0xFF, 0xFF];
    ValueFour(ones);
    LeOfValue(ones);
  }

  const LEN_AT := 48

  /**
   * Reading the length word through a `size_t *`, on the bytes: 8 of them at offset 48 yield what LoadLen
   * says for a 64-bit size_t, 4 of them what it says for a 32-bit one.
   */
  lemma SizeLoad(x: OutBuf)
    requires OutBufFits(x)
    ensures Value(Window(EncodeOut(x), LEN_AT, 8)) == LoadLen(x.bufLen, x.buf, true)
    ensures Value(Window(EncodeOut(x), LEN_AT, 4)) == LoadLen(x.bufLen, x.buf, false)
  {
    var b := EncodeOut(x);
    WordRoundTrip(x.bufLen);
    assert b[48..52] == Le(x.bufLen, 4) && b[52..56] == x.buf[..4];
    assert b[48..56] == b[48..52] + b[52..56];
    ValueConcat(b[48..52], b[52..56]);
    WordSize();
  }

  /** Writing it: 8 bytes change the reply as StoreLen says, and with 4 bytes nothing else is touched. */
  lemma SizeStore(x: OutBuf, size: nat)
    requires OutBufFits(x) && size < WORD
    ensures var wide := StoreLen(View(x), true, size);
      Splice(EncodeOut(x), LEN_AT, Le(size, 8)) == EncodeOut(x.(bufLen := wide.bufLen, buf := wide.buf))
    ensures Splice(EncodeOut(x), LEN_AT, Le(size, 4)) == EncodeOut(x.(bufLen := size))
  {
    var b, head := EncodeOut(x), x.buf[..4];
    WideSize(size);
    SpliceLen(x, Le(size, 4), head);
    SpliceLen(x, Le(size, 4), [0, 0, 0, 0]);
    assert head + x.buf[4..] == x.buf;
    assert b[52..] == x.buf;
    assert Splice(b, LEN_AT, Le(size, 4)) == b[..48] + Le(size, 4) + x.buf == Splice(b, LEN_AT, Le(size, 4) + head);
  }

  /** A size below 2^32 as eight bytes. */
  lemma WideSize(size: nat)
    requires size < WORD
    ensures Le(size, 8) == Le(size, 4) + [0, 0, 0, 0]
  {
    WordSize();
    LeSplit(size, 4);
    FourZeros();
  }

  lemma {:induction false} LeSplit(n: nat, k: nat)
    requires n < Pow256(k)
    ensures Le(n, k + 4) == Le(n, k) + Le(0, 4)
  {
    if k > 0 {
      assert n / 0x100 < Pow256(k - 1);
      LeSplit(n / 0x100, k - 1);
    }
  }

  lemma SpliceLen(x: OutBuf, word: Buffer, head: Buffer)
    requires OutBufFits(x) && |word| == |head| == 4
    ensures Splice(EncodeOut(x), LEN_AT, word + head)
            == Le(x.status, 4) + Le(x.sysErr, 4) + x.errLine + Le(x.hwId, 4) + Le(x.taVer, 4) + word + (head + x.buf[4..])
  {
    var b := EncodeOut(x);
    assert b[..48] == Le(x.status, 4) + Le(x.sysErr, 4) + x.errLine + Le(x.hwId, 4) + Le(x.taVer, 4);
    assert b[56..] == x.buf[4..];
  }
}
