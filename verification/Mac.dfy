/**
 * Message authentication: HMAC as section 2 of RFC 2104 defines it, the one-shot computation used on
 * QSEE, the chunked one used on iSee, and the verification loop every platform carries a copy of.
 */
module Mac {
  import opened Common
  import opened Vendor
  import opened TrustedApp

  // ------------------------------------------------------------------ HMAC over an abstract hash

  /**
   * Any hash that consumes its input byte by byte: an initial state, how one byte changes it, and the
   * digest of a state.  SHA-256 is one.
   */
  datatype Hash<!S> = Hash(init: S, absorb: (S, byte) -> S, digest: S -> Buffer)

  const BLOCK := 64

  function Absorb<S>(h: Hash<S>, s: S, data: Buffer): S {
    if data == [] then s else Absorb(h, h.absorb(s, data[0]), data[1..])
  }

  lemma {:induction false} AbsorbConcat<S>(h: Hash<S>, s: S, a: Buffer, b: Buffer)
    ensures Absorb(h, s, a + b) == Absorb(h, Absorb(h, s, a), b)
    decreases |a|
  {
    if a == [] {
      assert a + b == b;
    } else {
      AbsorbConcat(h, h.absorb(s, a[0]), a[1..], b);
      assert (a + b)[0] == a[0] && (a + b)[1..] == a[1..] + b;
    }
  }

  function Digest<S>(h: Hash<S>, data: Buffer): Buffer {
    h.digest(Absorb(h, h.init, data))
  }

  /** The key as one block: hashed first if it is longer, then filled up with zeros. */
  function KeyBlock<S>(h: Hash<S>, key: Buffer): Buffer {
    var k := if |key| > BLOCK then Digest(h, key) else key;
    if |k| < BLOCK then k + seq(BLOCK - |k|, _ => 0) else k
  }

  function Pad(block: Buffer, mask: byte): Buffer {
    seq(|block|, i requires 0 <= i < |block| => block[i] ^ mask)
  }

  const IPAD: byte := 0x36
  const OPAD: byte := 0x5c

  /** HMAC of a whole message: H(K ^ opad, H(K ^ ipad, message)). */
  function Hmac<S>(h: Hash<S>, key: Buffer, msg: Buffer): Buffer {
    var block := KeyBlock(h, key);
    Digest(h, Pad(block, OPAD) + Digest(h, Pad(block, IPAD) + msg))
  }

  // ------------------------------------------------------------------ what that is, byte by byte

  /** A hash takes up its input in order, one byte at a time. */
  lemma AbsorbInOrder<S>(h: Hash<S>, s: S, data: Buffer, b: byte)
    ensures Absorb(h, s, []) == s
    ensures Absorb(h, s, data + [b]) == h.absorb(Absorb(h, s, data), b)
  {
    AbsorbConcat(h, s, data, [b]);
    assert [b][1..] == [];
  }

  /** Byte `k` of the key once it fills a block: the key, or its digest if it is longer than 64 bytes, then zeros. */
  function KeyByte<S>(h: Hash<S>, key: Buffer, k: nat): byte {
    if |key| <= 64 then (if k < |key| then key[k] else 0)
    else if k < |h.digest(Absorb(h, h.init, key))| then h.digest(Absorb(h, h.init, key))[k]
    else 0
  }

  /**
   * Section 2 of RFC 2104, for every hash whose digests fit a block of 64 bytes: the MAC is the digest of the
   * key's bytes xor 0x5c followed by the digest of the key's bytes xor 0x36 and the message.
   */
  lemma HmacIsRfc2104<S(!new)>(h: Hash<S>, key: Buffer, msg: Buffer, outer: Buffer, inner: Buffer)
    requires forall s: S :: |h.digest(s)| <= 64
    requires |outer| == |inner| == 64
    requires forall k | 0 <= k < 64 :: outer[k] == KeyByte(h, key, k) ^ 0x5c && inner[k] == KeyByte(h, key, k) ^ 0x36
    ensures Hmac(h, key, msg)
            == h.digest(Absorb(h, h.init, outer + h.digest(Absorb(h, h.init, inner + msg))))
  {
    var block := KeyBlock(h, key);
    assert |block| == 64 && forall k | 0 <= k < 64 :: block[k] == KeyByte(h, key, k);
    assert Pad(block, 0x5c) == outer && Pad(block, 0x36) == inner;
  }

  /** The hash that is its input. */
  const IDENTITY: Hash<Buffer> := Hash([], (s, b) => s + [b], s => s)

  lemma {:induction false} IdentityAbsorbs(s: Buffer, data: Buffer)
    ensures Absorb(IDENTITY, s, data) == s + data
    decreases |data|
  {
    if data == [] {
      assert s + data == s;
    } else {
      IdentityAbsorbs(s + [data[0]], data[1..]);
      assert s + [data[0]] + data[1..] == s + data;
    }
  }

  lemma IdentityHmac(key: Buffer, msg: Buffer) returns (outer: Buffer, inner: Buffer)
    requires |key| <= 64
    ensures Hmac(IDENTITY, key, msg) == outer + inner + msg
    ensures outer == Pad(KeyBlock(IDENTITY, key), OPAD) && inner == Pad(KeyBlock(IDENTITY, key), IPAD)
  {
    var block := KeyBlock(IDENTITY, key);
    outer, inner := Pad(block, OPAD), Pad(block, IPAD);
    IdentityAbsorbs([], inner + msg);
    assert [] + (inner + msg) == inner + msg;
    IdentityAbsorbs([], outer + (inner + msg));
    assert [] + (outer + (inner + msg)) == outer + inner + msg;
  }

  /** With it, a MAC under a key that fits a block spells out its parts. */
  lemma HmacByteByByte(key: Buffer, msg: Buffer, k: nat)
    requires |key| <= 64
    ensures var mac := Hmac(IDENTITY, key, msg);
      && |mac| == 128 + |msg|
      && (k < |key| ==> mac[k] == key[k] ^ 0x5c && mac[64 + k] == key[k] ^ 0x36)
      && (|key| <= k < 64 ==> mac[k] == 0x5c && mac[64 + k] == 0x36)
      && (k < |msg| ==> mac[128 + k] == msg[k])
  {
    var outer, inner := IdentityHmac(key, msg);
    ZeroXor();
  }

  lemma ZeroXor()
    ensures 0 as byte ^ 0x5c == 0x5c && 0 as byte ^ 0x36 == 0x36
  {
  }

  // ------------------------------------------------------------------ chunking

  /** How many pieces a message is fed in: whole ones of 32 bytes and, if bytes remain, a shorter one. */
  function ChunkCount(len: nat): nat {
    if len == 0 then 0 else if len <= HMAC_LEN then 1 else 1 + ChunkCount(len - HMAC_LEN)
  }

  /** Counted the code's way, with a quotient and a remainder. */
  lemma {:induction false} ChunkCountIs(len: nat)
    ensures ChunkCount(len) == len / HMAC_LEN + if len % HMAC_LEN > 0 then 1 else 0
  {
    if len > HMAC_LEN {
      ChunkCountIs(len - HMAC_LEN);
    }
  }

  function ChunkEnd(len: nat, i: nat): (e: nat)
    ensures e <= len
  {
    if HMAC_LEN * i < len then HMAC_LEN * i else len
  }

  lemma ChunkBounds(len: nat, i: nat)
    ensures i < ChunkCount(len) ==>
      && ChunkEnd(len, i) == HMAC_LEN * i < ChunkEnd(len, i + 1) <= ChunkEnd(len, i) + HMAC_LEN
      && (i + 1 < ChunkCount(len) ==> ChunkEnd(len, i + 1) == ChunkEnd(len, i) + HMAC_LEN)
    ensures ChunkEnd(len, 0) == 0 && ChunkEnd(len, ChunkCount(len)) == len
  {
    ChunkCountIs(len);
  }

  function Chunk(msg: Buffer, i: nat): Buffer
    requires i < ChunkCount(|msg|)
  {
    ChunkBounds(|msg|, i);
    msg[ChunkEnd(|msg|, i)..ChunkEnd(|msg|, i + 1)]
  }

  /** All pieces have 32 bytes, except that the last one may be shorter; none is empty. */
  lemma ChunkSizes(msg: Buffer, i: nat)
    requires i < ChunkCount(|msg|)
    ensures 0 < |Chunk(msg, i)| <= 32
    ensures i + 1 < ChunkCount(|msg|) ==> |Chunk(msg, i)| == 32
    ensures msg[..ChunkEnd(|msg|, i + 1)] == msg[..ChunkEnd(|msg|, i)] + Chunk(msg, i)
  {
    ChunkBounds(|msg|, i);
    Extend(msg, ChunkEnd(|msg|, i), ChunkEnd(|msg|, i + 1));
  }

  // ------------------------------------------------------------------ the chunked computation's calls

  /** A call into the vendor's MAC service. */
  datatype MacCall = Open | Start(key: Buffer) | Update(piece: Buffer) | Finish | Close

  /** The calls of a computation in which everything succeeds, up to the close. */
  function Ideal(key: Buffer, msg: Buffer): (calls: seq<MacCall>)
    ensures IsIdeal(calls, key, msg)
  {
    [Open, Start(key)] + seq(ChunkCount(|msg|), i requires 0 <= i < ChunkCount(|msg|) => Update(Chunk(msg, i))) + [Finish]
  }

  /** `calls` is an ideal trace, position by position. */
  ghost predicate IsIdeal(calls: seq<MacCall>, key: Buffer, msg: Buffer) {
    && |calls| == ChunkCount(|msg|) + 3
    && calls[0] == Open && calls[1] == Start(key) && calls[|calls| - 1] == Finish
    && forall k | 2 <= k < |calls| - 1 :: calls[k] == Update(Chunk(msg, k - 2))
  }

  /** The return code of the `k`-th call; calls beyond the list succeed. */
  function Code(rets: seq<int>, k: nat): int {
    if k < |rets| then rets[k] else 0
  }

  /** The first `n` calls succeed. */
  predicate Clear(rets: seq<int>, n: nat) {
    n == 0 || (Clear(rets, n - 1) && Code(rets, n - 1) == 0)
  }

  /** The first of `n` calls that fails, or `n`. */
  function FirstFailure(rets: seq<int>, n: nat): (f: nat)
    ensures f <= n && (f < n ==> Code(rets, f) != 0) && Clear(rets, f)
  {
    if n == 0 then 0
    else
      var f := FirstFailure(rets, n - 1);
      if f < n - 1 || Code(rets, n - 1) != 0 then f else n
  }

  lemma ClearAt(rets: seq<int>, n: nat, k: nat)
    requires Clear(rets, n) && k < n
    ensures Code(rets, k) == 0
  {
  }

  lemma {:induction false} FirstFailureIs(rets: seq<int>, n: nat, f: nat)
    requires f <= n && (f < n ==> Code(rets, f) != 0) && Clear(rets, f)
    ensures FirstFailure(rets, n) == f
  {
    var g := FirstFailure(rets, n);
    if f < g {
      ClearAt(rets, g, f);
    } else if g < f {
      ClearAt(rets, f, g);
    }
  }

  lemma ClearExactly(rets: seq<int>, n: nat)
    ensures Clear(rets, n) <==> FirstFailure(rets, n) == n
    ensures Clear(rets, n) <==> forall k | 0 <= k < n && k < |rets| :: rets[k] == 0
  {
    var f := FirstFailure(rets, n);
    if Clear(rets, n) && f < n {
      ClearAt(rets, n, f);
    }
  }

  lemma NoFailure(n: nat)
    ensures Clear([], n)
  {
  }

  /** What iSee's computation calls when its calls return `rets`. */
  function IseeTrace(key: Buffer, msg: Buffer, rets: seq<int>): seq<MacCall> {
    CutOff(Ideal(key, msg), rets)
  }

  /** The calls up to the first failure, and the close of a context that was opened. */
  function CutOff(ideal: seq<MacCall>, rets: seq<int>): seq<MacCall> {
    var f := FirstFailure(rets, |ideal|);
    if f == 0 then [Open]
    else (if f < |ideal| then ideal[..f + 1] else ideal) + [Close]
  }

  lemma SomeIdeal(key: Buffer, msg: Buffer) returns (ideal: seq<MacCall>)
    ensures IsIdeal(ideal, key, msg)
  {
    ideal := Ideal(key, msg);
  }

  lemma {:induction false} CutOffAt(ideal: seq<MacCall>, rets: seq<int>, f: nat)
    requires f <= |ideal| && (f < |ideal| ==> Code(rets, f) != 0) && Clear(rets, f)
    ensures FirstFailure(rets, |ideal|) == f
    ensures CutOff(ideal, rets) == if f == 0 then [Open] else (if f < |ideal| then ideal[..f + 1] else ideal) + [Close]
  {
    var n := |ideal|;
    FirstFailureIs(rets, n, f);
  }

  lemma OneIdeal(a: seq<MacCall>, b: seq<MacCall>, key: Buffer, msg: Buffer)
    requires IsIdeal(a, key, msg) && IsIdeal(b, key, msg)
    ensures a == b
  {
    forall k | 0 <= k < |a| ensures a[k] == b[k] {
      if 2 <= k < |a| - 1 {
        assert a[k] == Update(Chunk(msg, k - 2));
      }
    }
  }

  /** There is only one ideal trace, so IseeTrace can be told from any. */
  lemma IseeTraceIs(ideal: seq<MacCall>, key: Buffer, msg: Buffer, rets: seq<int>, f: nat)
    requires IsIdeal(ideal, key, msg)
    requires f <= |ideal| && (f < |ideal| ==> Code(rets, f) != 0) && Clear(rets, f)
    ensures FirstFailure(rets, |ideal|) == f
    ensures IseeTrace(key, msg, rets)
            == if f == 0 then [Open] else (if f < |ideal| then ideal[..f + 1] else ideal) + [Close]
  {
    var calls := Ideal(key, msg);
    OneIdeal(ideal, calls, key, msg);
    CutOffAt(ideal, rets, f);
  }

  function Fed(calls: seq<MacCall>): Buffer {
    if calls == [] then []
    else
      var last := calls[|calls| - 1];
      Fed(calls[..|calls| - 1]) + if last.Update? then last.piece else []
  }

  lemma FedSnoc(calls: seq<MacCall>, c: MacCall)
    ensures Fed(calls + [c]) == Fed(calls) + if c.Update? then c.piece else []
  {
    assert (calls + [c])[..|calls|] == calls;
  }

  lemma FedBegin(key: Buffer)
    ensures Fed([Open, Start(key)]) == []
  {
    assert [Open, Start(key)][..1] == [Open] && [Open][..0] == [];
  }

  /** Up to and including update `n`, what has been fed is the message up to the end of piece `n`. */
  ghost predicate FeedsTo(ideal: seq<MacCall>, msg: Buffer, n: nat) {
    2 + n <= |ideal| && Fed(ideal[..2 + n]) == msg[..ChunkEnd(|msg|, n)]
  }

  lemma IdealFeedsChunk(ideal: seq<MacCall>, key: Buffer, msg: Buffer, n: nat)
    requires IsIdeal(ideal, key, msg) && 0 < n <= ChunkCount(|msg|) && FeedsTo(ideal, msg, n - 1)
    ensures FeedsTo(ideal, msg, n)
  {
    var calls, next := ideal[..1 + n], Update(Chunk(msg, n - 1));
    assert ideal[..2 + n] == calls + [next] by {
      TakeSnoc(ideal, 1 + n);
    }
    FedSnoc(calls, next);
    ChunkSizes(msg, n - 1);
  }

  lemma IdealFeedsNothingYet(ideal: seq<MacCall>, key: Buffer, msg: Buffer)
    requires IsIdeal(ideal, key, msg)
    ensures FeedsTo(ideal, msg, 0)
  {
    assert ideal[..2] == [Open, Start(key)];
    FedBegin(key);
    ChunkBounds(|msg|, 0);
  }

  lemma {:induction false} IdealFeeds(ideal: seq<MacCall>, key: Buffer, msg: Buffer, n: nat)
    requires IsIdeal(ideal, key, msg) && n <= ChunkCount(|msg|)
    ensures FeedsTo(ideal, msg, n)
  {
    if n == 0 {
      IdealFeedsNothingYet(ideal, key, msg);
    } else {
      IdealFeeds(ideal, key, msg, n - 1);
      IdealFeedsChunk(ideal, key, msg, n);
    }
  }

  lemma IdealFeedsAll(ideal: seq<MacCall>, key: Buffer, msg: Buffer)
    requires IsIdeal(ideal, key, msg)
    ensures Fed(ideal) == msg
  {
    var n := |ideal| - 3;
    IdealFeeds(ideal, key, msg, n);
    ChunkBounds(|msg|, n);
    assert ideal == ideal[..2 + n] + [Finish];
    FedSnoc(ideal[..2 + n], Finish);
  }

  /** What the first `k` calls of an ideal trace feed. */
  lemma FedByPrefix(ideal: seq<MacCall>, key: Buffer, msg: Buffer, k: nat) returns (n: nat)
    requires IsIdeal(ideal, key, msg) && 2 <= k <= |ideal|
    ensures n <= |msg| && Fed(ideal[..k]) == msg[..n]
    ensures k == |ideal| ==> n == |msg|
  {
    if k < |ideal| {
      IdealFeeds(ideal, key, msg, k - 2);
      n := ChunkEnd(|msg|, k - 2);
    } else {
      IdealFeedsAll(ideal, key, msg);
      assert ideal[..k] == ideal;
      n := |msg|;
      assert msg[..n] == msg;
    }
  }

  lemma FedByTrace(ideal: seq<MacCall>, key: Buffer, msg: Buffer, k: nat) returns (n: nat)
    requires IsIdeal(ideal, key, msg) && 2 <= k <= |ideal|
    ensures n <= |msg| && Fed(ideal[..k] + [Close]) == msg[..n]
    ensures k == |ideal| ==> n == |msg|
  {
    n := FedByPrefix(ideal, key, msg, k);
    FedSnoc(ideal[..k], Close);
  }

  lemma FedIsPrefix(key: Buffer, msg: Buffer, rets: seq<int>) returns (n: nat)
    ensures n <= |msg| && Fed(IseeTrace(key, msg, rets)) == msg[..n]
    ensures FirstFailure(rets, ChunkCount(|msg|) + 3) == ChunkCount(|msg|) + 3 ==> n == |msg|
  {
    var ideal := SomeIdeal(key, msg);
    var f := FirstFailure(rets, |ideal|);
    IseeTraceIs(ideal, key, msg, rets, f);
    if f == 0 {
      assert [Open][..0] == [];
      n := 0;
    } else {
      var k := if f < |ideal| then f + 1 else f;
      n := FedByTrace(ideal, key, msg, k);
      assert ideal[..|ideal|] == ideal;
    }
  }

  /**
   * Whatever the point of failure: the computation makes its calls in order up to and including the
   * first that fails, and after that no update and no finish; an opened context is closed exactly once,
   * as the last thing, and one that did not open is not closed.
   */
  lemma IseeTraceStops(key: Buffer, msg: Buffer, rets: seq<int>)
    ensures var t := IseeTrace(key, msg, rets);
      var f := FirstFailure(rets, ChunkCount(|msg|) + 3);
      && (forall k | 0 <= k <= f && k < ChunkCount(|msg|) + 3 :: k < |t| && t[k] == Ideal(key, msg)[k])
      && (forall k | f < k < |t| :: t[k] == Close)
      && (forall k | 0 <= k < |t| :: t[k] == Close <==> k == |t| - 1 && Code(rets, 0) == 0)
  {
    var ideal := Ideal(key, msg);
    var f := FirstFailure(rets, |ideal|);
    if f > 0 {
      ClearAt(rets, f, 0);
    }
  }

  /** What reaches the service is a prefix of the message, and all of it when nothing fails. */
  lemma IseeFeedsPrefix(key: Buffer, msg: Buffer, rets: seq<int>)
    ensures exists n | 0 <= n <= |msg| :: Fed(IseeTrace(key, msg, rets)) == msg[..n]
    ensures FirstFailure(rets, ChunkCount(|msg|) + 3) == ChunkCount(|msg|) + 3 ==> Fed(IseeTrace(key, msg, rets)) == msg
  {
    var n := FedIsPrefix(key, msg, rets);
    assert msg[..|msg|] == msg;
  }

  // ------------------------------------------------------------------ the code

  /**
   * The vendor's incremental MAC service: one context, which must be open to be used or closed.  It keeps
   * no message bytes, only the hash state reached so far; that this is enough to return the HMAC of
   * everything fed to it is proved here, call by call.  The trace lists the calls since the latest
   * attempt to open a context.
   */
  class MacService<S(!new)> {
    const h: Hash<S>
    var isOpen: bool
    var block: Buffer
    var inner: S
    var trace: seq<MacCall>

    ghost var key: Buffer
    ghost var fed: Buffer

    /** The hash state is that of the inner HMAC message so far. */
    ghost predicate Running() reads this {
      isOpen && block == KeyBlock(h, key) && inner == Absorb(h, h.init, Pad(block, IPAD) + fed)
    }

    constructor (h: Hash<S>)
      ensures this.h == h && !isOpen && trace == []
    {
      this.h, isOpen, block, inner, trace := h, false, [], h.init, [];
    }

    method CpOpen(ret: int) returns (r: int)
      requires !isOpen
      modifies this`isOpen, this`trace
      ensures r == ret && (isOpen <==> ret == 0) && trace == [Open]
    {
      r, isOpen, trace := ret, ret == 0, [Open];
    }

    method McStart(key: Buffer, ret: int) returns (r: int)
      requires isOpen
      modifies this`block, this`inner, this`trace, this`key, this`fed
      ensures r == ret && trace == old(trace) + [Start(key)]
      ensures r == 0 ==> Running() && this.key == key && fed == []
    {
      r, trace := ret, trace + [Start(key)];
      block := KeyBlock(h, key);
      inner := Absorb(h, h.init, Pad(block, IPAD));
      this.key, fed := key, [];
      assert Pad(block, IPAD) + fed == Pad(block, IPAD);
    }

    method McUpdate(piece: Buffer, ret: int) returns (r: int)
      requires Running()
      modifies this`inner, this`trace, this`fed
      ensures r == ret && trace == old(trace) + [Update(piece)]
      ensures r == 0 ==> Running() && fed == old(fed) + piece
    {
      r, trace := ret, trace + [Update(piece)];
      AbsorbConcat(h, h.init, Pad(block, IPAD) + fed, piece);
      ConcatAssociates(Pad(block, IPAD), fed, piece);
      inner := Absorb(h, inner, piece);
      fed := fed + piece;
    }

    method McFinish(ret: int) returns (r: int, mac: Buffer)
      requires Running()
      modifies this`trace
      ensures r == ret && trace == old(trace) + [Finish]
      ensures r == 0 ==> mac == Hmac(h, key, fed)
    {
      r, trace := ret, trace + [Finish];
      mac := Digest(h, Pad(block, OPAD) + h.digest(inner));
    }

    method CpClose()
      requires isOpen
      modifies this`isOpen, this`trace
      ensures !isOpen && trace == old(trace) + [Close]
    {
      isOpen, trace := false, trace + [Close];
    }
  }

  /** What the update of piece `i` does to the trace and to the bytes fed. */
  lemma FeedStep(ideal: seq<MacCall>, key: Buffer, msg: Buffer, i: nat, at: nat, next: nat)
    requires IsIdeal(ideal, key, msg) && i < |ideal| - 3
    requires at == HMAC_LEN * i <= next <= |msg| && (next == at + HMAC_LEN || (next == |msg| < at + HMAC_LEN))
    ensures msg[..at] + msg[at..next] == msg[..next]
    ensures ideal[..2 + i] + [Update(msg[at..next])] == ideal[..3 + i]
  {
    ChunkBounds(|msg|, i);
    TakeSnoc(ideal, 2 + i);
  }

  ghost predicate DigestFits<S(!new)>(h: Hash<S>) {
    forall s: S :: |h.digest(s)| == HMAC_LEN
  }

  /** The MAC functions of the device table, with the part of the reply they touch. */
  class MacDevice<S(!new)> {
    const service: MacService<S>
    const h: Hash<S>
    var ok: bool
    var sysErr: int

    ghost predicate Valid() reads this, service {
      service.h == h && !service.isOpen && DigestFits(h)
    }

    constructor (h: Hash<S>, ok: bool, sysErr: int)
      requires DigestFits(h)
      ensures Valid() && fresh(service) && this.h == h && this.ok == ok && this.sysErr == sysErr
    {
      this.h, this.ok, this.sysErr := h, ok, sysErr;
      service := new MacService(h);
    }

    method Deliver(mac: Buffer, hmac: array<byte>)
      requires |mac| == HMAC_LEN == hmac.Length
      modifies hmac
      ensures hmac[..] == mac
    {
      forall k | 0 <= k < HMAC_LEN {
        hmac[k] := mac[k];
      }
    }

    /** One call computes the whole MAC, as on QSEE; a failure leaves the buffer alone. */
    method QseeGetHmac(msg: Buffer, key: Buffer, hmac: array<byte>, ret: int)
      requires Valid() && hmac.Length == HMAC_LEN
      modifies this`ok, this`sysErr, hmac
      ensures ok == (old(ok) && ret == 0) && sysErr == ret
      ensures hmac[..] == if ret == 0 then Hmac(h, key, msg) else old(hmac[..])
    {
      sysErr := ret;
      if ret != 0 {
        ok := false;
      } else {
        Deliver(Hmac(h, key, msg), hmac);
      }
    }

    /** Kinibi splits it into initialisation and signing. */
    method KinibiGetHmac(msg: Buffer, key: Buffer, hmac: array<byte>, initRet: int, signRet: int)
      requires Valid() && hmac.Length == HMAC_LEN
      modifies this`ok, this`sysErr, hmac
      ensures ok == (old(ok) && initRet == 0 && signRet == 0)
      ensures sysErr == if initRet != 0 then initRet else signRet
      ensures hmac[..] == if initRet == 0 && signRet == 0 then Hmac(h, key, msg) else old(hmac[..])
    {
      sysErr := initRet;
      if initRet != 0 {
        ok := false;
        return;
      }
      sysErr := signRet;
      if signRet != 0 {
        ok := false;
      } else {
        Deliver(Hmac(h, key, msg), hmac);
      }
    }

    /** Trusty's library call returns null on failure; sys_err is never assigned. */
    method TrustyGetHmac(msg: Buffer, key: Buffer, hmac: array<byte>, isNull: bool)
      requires Valid() && hmac.Length == HMAC_LEN
      modifies this`ok, hmac
      ensures ok == (old(ok) && !isNull)
      ensures hmac[..] == if isNull then old(hmac[..]) else Hmac(h, key, msg)
    {
      if isNull {
        ok := false;
      } else {
        Deliver(Hmac(h, key, msg), hmac);
      }
    }

    /**
     * iSee feeds the message in pieces of 32 bytes.  `rets` are the return codes of the service's calls in
     * the order they are made.  Whatever they are, the calls are those of IseeTrace, the context is closed
     * if it was opened, and the MAC is delivered exactly when no call failed; it is then the one-shot HMAC.
     */
    method IseeGetHmac(msg: Buffer, key: Buffer, hmac: array<byte>, rets: seq<int>)
      requires Valid() && hmac.Length == HMAC_LEN
      modifies this`ok, this`sysErr, service, hmac
      ensures Valid() && service.trace == IseeTrace(key, msg, rets)
      ensures var n := ChunkCount(|msg|) + 3; var f := FirstFailure(rets, n);
        && ok == (old(ok) && f == n)
        && sysErr == (if f < n then Code(rets, f) else 0)
        && hmac[..] == if f == n then Hmac(h, key, msg) else old(hmac[..])
    {
      ghost var ideal := SomeIdeal(key, msg);
      sysErr := service.CpOpen(Code(rets, 0));
      if sysErr != 0 {
        ok := false;
        IseeTraceIs(ideal, key, msg, rets, 0);
        return;
      }
      ghost var f := IseeCompute(msg, key, hmac, rets, ideal);
      IseeTraceIs(ideal, key, msg, rets, f);
      service.CpClose();
    }

    /** From the opened context to the close; `f` is the number of calls made before the failing one. */
    method IseeCompute(msg: Buffer, key: Buffer, hmac: array<byte>, rets: seq<int>, ghost ideal: seq<MacCall>)
      returns (ghost f: nat)
      requires service.h == h && DigestFits(h) && hmac.Length == HMAC_LEN
      requires service.isOpen && service.trace == [Open] && IsIdeal(ideal, key, msg) && Clear(rets, 1)
      modifies this`ok, this`sysErr, service`block, service`inner, service`trace, service`key, service`fed, hmac
      ensures 1 <= f <= |ideal| && (f < |ideal| ==> Code(rets, f) != 0) && Clear(rets, f)
      ensures service.trace == if f < |ideal| then ideal[..f + 1] else ideal
      ensures ok == (old(ok) && f == |ideal|)
      ensures sysErr == (if f < |ideal| then Code(rets, f) else 0)
      ensures hmac[..] == if f == |ideal| then Hmac(h, key, msg) else old(hmac[..])
    {
      f := 1;
      sysErr := service.McStart(key, Code(rets, 1));
      assert service.trace == ideal[..2];
      if sysErr != 0 {
        ok := false;
        return;
      }
      var made := IseeFeed(msg, key, rets, ideal);
      f := made;
      if sysErr != 0 {
        return;
      }
      TakeSnoc(ideal, f);
      assert ideal[..f + 1] == ideal;
      var mac;
      sysErr, mac := service.McFinish(Code(rets, made));
      if sysErr != 0 {
        ok := false;
      } else {
        f := f + 1;
        Deliver(mac, hmac);
      }
    }

    /** One update with its error check: the bytes from `at` to `next`, as call number `made`. */
    method IseeUpdate(msg: Buffer, key: Buffer, at: nat, next: nat, rets: seq<int>, made: nat, ghost ideal: seq<MacCall>)
      requires IsIdeal(ideal, key, msg) && 2 <= made < |ideal| - 1 && service.trace == ideal[..made] && Clear(rets, made)
      requires at == HMAC_LEN * (made - 2) <= next <= |msg|
      requires next == at + HMAC_LEN || (next == |msg| < at + HMAC_LEN)
      requires service.Running() && service.fed == msg[..at]
      modifies this`ok, this`sysErr, service`inner, service`trace, service`fed
      ensures sysErr == Code(rets, made) && ok == (old(ok) && sysErr == 0) && service.trace == ideal[..made + 1]
      ensures sysErr == 0 ==> service.Running() && service.fed == msg[..next] && Clear(rets, made + 1)
    {
      FeedStep(ideal, key, msg, made - 2, at, next);
      sysErr := service.McUpdate(msg[at..next], Code(rets, made));
      if sysErr != 0 {
        ok := false;
      }
    }

    /** The update loop and the update for the rest; `made` counts the calls that succeeded so far. */
    method IseeFeed(msg: Buffer, key: Buffer, rets: seq<int>, ghost ideal: seq<MacCall>) returns (made: nat)
      requires service.Running() && service.key == key && service.fed == []
      requires IsIdeal(ideal, key, msg) && service.trace == ideal[..2] && Clear(rets, 2) && sysErr == 0
      modifies this`ok, this`sysErr, service`inner, service`trace, service`fed
      ensures 2 <= made < |ideal| && Clear(rets, made) && ok == (old(ok) && sysErr == 0)
      ensures sysErr == 0 ==>
        made == |ideal| - 1 && service.trace == ideal[..made] && service.Running() && service.fed == msg
      ensures sysErr != 0 ==>
        made < |ideal| - 1 && sysErr == Code(rets, made) && service.trace == ideal[..made + 1]
    {
      var n, l := |msg| / HMAC_LEN, |msg| % HMAC_LEN;
      assert |msg| == HMAC_LEN * n + l && 0 <= l < HMAC_LEN && |ideal| == n + (if l > 0 then 1 else 0) + 3 by {
        ChunkCountIs(|msg|);
      }
      var i, at := 0, 0;
      made := 2;
      while i < n
        invariant 0 <= i <= n && at == HMAC_LEN * i && made == 2 + i
        invariant ok == old(ok) && sysErr == 0 && Clear(rets, made)
        invariant service.trace == ideal[..made]
        invariant service.Running() && service.key == key && service.fed == msg[..at]
      {
        IseeUpdate(msg, key, at, at + HMAC_LEN, rets, made, ideal);
        if sysErr != 0 {
          return;
        }
        at := at + HMAC_LEN;
        i := i + 1;
        made := made + 1;
      }
      if l > 0 {
        IseeUpdate(msg, key, at, at + l, rets, made, ideal);
        if sysErr != 0 {
          return;
        }
        made := made + 1;
      }
    }

    // ---------------------------------------------------------------- verification

    /** The comparison loop: status turns to ERR at the first byte that differs, and only there. */
    method Compare(hmac: array<byte>, computed: array<byte>)
      requires hmac.Length == computed.Length == HMAC_LEN
      modifies this`ok
      ensures ok == (old(ok) && hmac[..] == computed[..])
    {
      var i := 0;
      while i < HMAC_LEN
        invariant 0 <= i <= HMAC_LEN && ok == old(ok)
        invariant forall k | 0 <= k < i :: hmac[k] == computed[k]
      {
        if hmac[i] ^ computed[i] != 0 {
          assert hmac[..][i] != computed[..][i];
          ok := false;
          break;
        }
        i := i + 1;
      }
    }

    /** Accepts exactly the one MAC of the message, given that the vendor computes it. */
    method QseeVerify(msg: Buffer, key: Buffer, hmac: array<byte>, ret: int)
      requires Valid() && hmac.Length == HMAC_LEN
      modifies this`ok, this`sysErr
      ensures ok <==> old(ok) && ret == 0 && hmac[..] == Hmac(h, key, msg)
      ensures sysErr == ret
    {
      var computed := new byte[HMAC_LEN];
      QseeGetHmac(msg, key, computed, ret);
      if sysErr != 0 {
        ok := false;
        return;
      }
      Compare(hmac, computed);
    }

    method KinibiVerify(msg: Buffer, key: Buffer, hmac: array<byte>, initRet: int, signRet: int)
      requires Valid() && hmac.Length == HMAC_LEN
      modifies this`ok, this`sysErr
      ensures ok <==> old(ok) && initRet == 0 && signRet == 0 && hmac[..] == Hmac(h, key, msg)
      ensures sysErr == if initRet != 0 then initRet else signRet
    {
      var computed := new byte[HMAC_LEN];
      KinibiGetHmac(msg, key, computed, initRet, signRet);
      if sysErr != 0 {
        ok := false;
        return;
      }
      Compare(hmac, computed);
    }

    method IseeVerify(msg: Buffer, key: Buffer, hmac: array<byte>, rets: seq<int>)
      requires Valid() && hmac.Length == HMAC_LEN
      modifies this`ok, this`sysErr, service
      ensures Valid()
      ensures ok <==> old(ok) && Clear(rets, ChunkCount(|msg|) + 3) && hmac[..] == Hmac(h, key, msg)
      ensures var n := ChunkCount(|msg|) + 3; var f := FirstFailure(rets, n);
        sysErr == if f < n then Code(rets, f) else 0
    {
      var computed := new byte[HMAC_LEN];
      IseeGetHmac(msg, key, computed, rets);
      ClearExactly(rets, ChunkCount(|msg|) + 3);
      if sysErr != 0 {
        ok := false;
        return;
      }
      Compare(hmac, computed);
    }

    /**
     * Trusty computes the MAC without touching sys_err and then tests sys_err, so the verdict depends on
     * what an earlier command left there.
     */
    method TrustyVerify(msg: Buffer, key: Buffer, hmac: array<byte>, isNull: bool)
      requires Valid() && hmac.Length == HMAC_LEN
      modifies this`ok
      ensures ok <==> old(ok) && !isNull && sysErr == 0 && hmac[..] == Hmac(h, key, msg)
    {
      var computed := new byte[HMAC_LEN];
      TrustyGetHmac(msg, key, computed, isNull);
      if sysErr != 0 {
        ok := false;
        return;
      }
      Compare(hmac, computed);
    }

    /** A MAC that differs from the HMAC in any byte is refused on every platform, whatever the vendor returns. */
    method WrongMacRefused(msg: Buffer, key: Buffer, hmac: array<byte>, k: nat, rets: seq<int>, ret: int, isNull: bool)
      returns (qsee: bool, isee: bool, kinibi: bool, trusty: bool)
      requires Valid() && hmac.Length == HMAC_LEN && k < HMAC_LEN
      requires |Hmac(h, key, msg)| == HMAC_LEN && hmac[k] != Hmac(h, key, msg)[k]
      modifies this`ok, this`sysErr, service
      ensures !qsee && !isee && !kinibi && !trusty
    {
      ghost var given := hmac[..];
      assert given[k] != Hmac(h, key, msg)[k];
      ok := true;
      TrustyVerify(msg, key, hmac, isNull);
      trusty, ok := ok, true;
      QseeVerify(msg, key, hmac, ret);
      qsee, ok := ok, true;
      KinibiVerify(msg, key, hmac, ret, ret);
      kinibi, ok := ok, true;
      IseeVerify(msg, key, hmac, rets);
      isee := ok;
    }

    /** A MAC computed in pieces on iSee is accepted by every other platform's verification, and by iSee's. */
    method ComputeThenVerify(msg: Buffer, key: Buffer, hmac: array<byte>)
      requires Valid() && hmac.Length == HMAC_LEN && ok
      modifies this`ok, this`sysErr, service, hmac
      ensures Valid() && ok && hmac[..] == Hmac(h, key, msg)
    {
      NoFailure(ChunkCount(|msg|) + 3);
      ClearExactly([], ChunkCount(|msg|) + 3);
      IseeGetHmac(msg, key, hmac, []);
      ghost var mac := hmac[..];
      assert mac == Hmac(h, key, msg);
      IseeVerify(msg, key, hmac, []);
      assert hmac[..] == mac;
      QseeVerify(msg, key, hmac, 0);
      KinibiVerify(msg, key, hmac, 0, 0);
      TrustyVerify(msg, key, hmac, false);
    }
  }

  /** A Trusty write of at least one byte that reported OK leaves the byte count in sys_err. */
  lemma TrustyWriteLeavesCount(files: Files, out: Out, name: string, data: Buffer, plan: Plan)
    requires WriteSpec(Trusty, files, out, name, data, plan).1.ok
    ensures WriteSpec(Trusty, files, out, name, data, plan).1.sysErr == if plan.io < |data| then plan.io else |data|
  {
  }

  /**
   * Why Trusty's verdict cannot be relied on after other commands: whenever a Trusty write reported OK and moved
   * at least one byte, a verification that follows rejects every MAC, the right one included.
   */
  method VerifyAfterWrite<S(!new)>(d: MacDevice<S>, msg: Buffer, key: Buffer, hmac: array<byte>, isNull: bool,
                                   ghost files: Files, ghost out: Out, ghost name: string, ghost data: Buffer, ghost plan: Plan)
    requires d.Valid() && hmac.Length == HMAC_LEN
    requires WriteSpec(Trusty, files, out, name, data, plan).1.ok && data != [] && 0 < plan.io
    requires d.sysErr == WriteSpec(Trusty, files, out, name, data, plan).1.sysErr
    modifies d`ok
    ensures !d.ok
  {
    TrustyWriteLeavesCount(files, out, name, data, plan);
    d.TrustyVerify(msg, key, hmac, isNull);
  }
}
