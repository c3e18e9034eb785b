/** The test driver: random commands, the call loop, the statistics, and the end of the session. */
module Driver {
  import opened Common
  import opened Words

  /** BUF_LEN / sizeof(int) */
  const DATA_LEN := 8192
  const TEST_FILE: string := "test.txt"
  const MAX_PAYLOAD := 32736
  const U32: nat := 0x1_0000_0000
  const U64: nat := 0x1_0000_0000_0000_0000

  /** A reading of the clock. */
  datatype Time = Time(sec: int, usec: int)

  predicate ValidTime(t: Time) {
    0 <= t.usec < 1_000_000
  }

  /** Microseconds since the epoch. */
  function Micros(t: Time): int {
    1_000_000 * t.sec + t.usec
  }

  /** What the driver takes for the elapsed time: the seconds are ignored and the difference has 32 bits. */
  function Measured(start: Time, end: Time): (t: nat)
    ensures t < U32
  {
    (end.usec - start.usec) % U32
  }

  /**
   * The measurement is right exactly when the call did not cross the boundary of a second; if it did and the
   * microseconds run backwards, it is off by more than an hour.
   */
  lemma MeasuredExactly(start: Time, end: Time)
    requires ValidTime(start) && ValidTime(end) && Micros(start) <= Micros(end)
    ensures Measured(start, end) == 1_000_000 * (end.sec - start.sec) + (end.usec - start.usec) <==> start.sec == end.sec
    ensures Measured(start, end)
            == if start.usec <= end.usec then end.usec - start.usec else 4294967296 - (start.usec - end.usec)
  {
    var d := end.usec - start.usec;
    if 0 <= d {
      assert Measured(start, end) == d;
    } else {
      assert Measured(start, end) == d + U32;
      assert 1_000_000 * (end.sec - start.sec) != U32;
    }
  }

  /**
   * One round of the test loop as the outside decides it: the random numbers, the clock before and after
   * the call, and the status the call leaves in the reply - none if the transport did not deliver one.
   */
  datatype Round = Round(rands: seq<nat>, start: Time, end: Time, reply: Option<bool>)

  predicate RoundFits(r: Round) {
    |r.rands| == 2 + DATA_LEN
  }

  function Cmd(r: Round): (c: nat)
    requires RoundFits(r)
    ensures c < TEE_CMD_RELEASE
  {
    r.rands[0] % TEE_CMD_RELEASE
  }

  function Cost(r: Round): (t: nat)
    ensures t < U32 && (t - (r.end.usec - r.start.usec)) % 4294967296 == 0
  {
    Measured(r.start, r.end)
  }

  predicate AllFit(rounds: seq<Round>) {
    forall k | 0 <= k < |rounds| :: RoundFits(rounds[k])
  }

  // ------------------------------------------------------------------ what a run measures

  /** The status in the reply buffer after `rounds`: a call that delivers nothing leaves the old one. */
  function StatusAfter(ok0: bool, rounds: seq<Round>): bool {
    if rounds == [] then ok0
    else
      match rounds[|rounds| - 1].reply
      case Some(ok) => ok
      case None => StatusAfter(ok0, rounds[..|rounds| - 1])
  }

  /** How many rounds pass before the first that leaves a status other than OK. */
  function Kept(ok0: bool, rounds: seq<Round>): (k: nat)
    ensures k <= |rounds|
  {
    if rounds == [] then 0
    else
      var k := Kept(ok0, rounds[..|rounds| - 1]);
      if k == |rounds| - 1 && StatusAfter(ok0, rounds) then |rounds| else k
  }

  /** That is: the status is OK after each of the first `k` rounds, and not after the next one. */
  lemma {:induction false} KeptExactly(ok0: bool, rounds: seq<Round>, k: nat)
    requires k <= |rounds|
    ensures k == Kept(ok0, rounds) <==>
      && (forall j | 0 < j <= k :: StatusAfter(ok0, rounds[..j]))
      && (k < |rounds| ==> !StatusAfter(ok0, rounds[..k + 1]))
  {
    KeptMeets(ok0, rounds);
    var m := Kept(ok0, rounds);
    if k < m {
      assert StatusAfter(ok0, rounds[..k + 1]);
    } else if m < k {
      assert !StatusAfter(ok0, rounds[..m + 1]);
    }
  }

  lemma {:induction false} KeptMeets(ok0: bool, rounds: seq<Round>)
    ensures forall j | 0 < j <= Kept(ok0, rounds) :: StatusAfter(ok0, rounds[..j])
    ensures Kept(ok0, rounds) < |rounds| ==> !StatusAfter(ok0, rounds[..Kept(ok0, rounds) + 1])
  {
    if rounds != [] {
      var init := rounds[..|rounds| - 1];
      KeptMeets(ok0, init);
      assert forall j | 0 <= j <= |init| :: rounds[..j] == init[..j];
      assert rounds[..|rounds|] == rounds;
    }
  }

  lemma KeptIs(ok0: bool, rounds: seq<Round>, k: nat)
    requires k <= |rounds| && Kept(ok0, rounds[..k]) == k
    requires k < |rounds| ==> !StatusAfter(ok0, rounds[..k + 1])
    ensures Kept(ok0, rounds) == k
  {
    KeptExactly(ok0, rounds[..k], k);
    assert forall j | 0 <= j <= k :: rounds[..k][..j] == rounds[..j];
    KeptExactly(ok0, rounds, k);
  }

  lemma KeptStep(ok0: bool, rounds: seq<Round>, i: nat)
    requires i < |rounds| && Kept(ok0, rounds[..i]) == i
    ensures StatusAfter(ok0, rounds[..i + 1])
            == match rounds[i].reply case Some(ok) => ok case None => StatusAfter(ok0, rounds[..i])
    ensures StatusAfter(ok0, rounds[..i + 1]) ==> Kept(ok0, rounds[..i + 1]) == i + 1
  {
    assert rounds[..i + 1][..i] == rounds[..i];
  }

  /** A request as it is handed to tee_cmd; the name is the C string in `str`. */
  datatype Packet = Packet(cmd: nat, name: string, spiNum: nat, i2cNum: nat, bufLen: nat, payload: Buffer)

  /** The request of a round. */
  function PacketOf(r: Round): Packet
    requires RoundFits(r)
  {
    Packet(Cmd(r), TEST_FILE, 0, 0x2e, PayloadLen(r.rands[1]), PayloadBytes(r))
  }

  /** What that is, in terms of the random numbers drawn: the last draw comes first in the payload. */
  lemma PacketExactly(r: Round, j: nat)
    requires RoundFits(r) && j < 8192
    ensures var q := PacketOf(r);
      && q.cmd == r.rands[0] % 5 && q.name == "test.txt" && q.spiNum == 0 && q.i2cNum == 46
      && q.bufLen == r.rands[1] % 1024 * 32
      && |q.payload| == 32768 && q.payload[4 * j..4 * j + 4] == Le(r.rands[8193 - j], 4)
  {
    BytesExactly(seq(DATA_LEN, i requires 0 <= i < DATA_LEN => r.rands[DATA_LEN + 1 - i]), j);
  }

  /** The requests of the first `n` rounds. */
  function Packets(rounds: seq<Round>, n: nat): (qs: seq<Packet>)
    requires AllFit(rounds) && n <= |rounds|
    ensures |qs| == n
  {
    if n == 0 then [] else Packets(rounds, n - 1) + [PacketOf(rounds[n - 1])]
  }

  lemma {:induction false} PacketsExactly(rounds: seq<Round>, n: nat, k: nat)
    requires AllFit(rounds) && k < n <= |rounds|
    ensures Packets(rounds, n)[k] == PacketOf(rounds[k])
  {
    if k < n - 1 {
      PacketsExactly(rounds, n - 1, k);
    }
  }

  /** A RELEASE is among the requests. */
  predicate Released(sent: seq<Packet>) {
    exists k :: 0 <= k < |sent| && sent[k].cmd == TEE_CMD_RELEASE
  }

  lemma NoRelease(rounds: seq<Round>, n: nat)
    requires AllFit(rounds) && n <= |rounds|
    ensures !Released(Packets(rounds, n))
  {
    forall k | 0 <= k < n ensures Packets(rounds, n)[k].cmd < TEE_CMD_RELEASE {
      PacketsExactly(rounds, n, k);
    }
  }

  /** How many rounds get as far as the call: one more than are kept, but only one without a table. */
  function Issued(bound: bool, ok0: bool, rounds: seq<Round>): (n: nat)
    ensures n <= |rounds| && (rounds != [] ==> 0 < n)
  {
    var k := Kept(ok0, rounds);
    if rounds == [] then 0 else if !bound then 1 else if k < |rounds| then k + 1 else k
  }

  /** The cost samples of one command, oldest first. */
  function Samples(rounds: seq<Round>, cmd: nat): seq<nat>
    requires AllFit(rounds)
  {
    if rounds == [] then []
    else
      var last := rounds[|rounds| - 1];
      Samples(rounds[..|rounds| - 1], cmd) + if Cmd(last) == cmd then [Cost(last)] else []
  }

  function Sum(xs: seq<nat>): nat {
    if xs == [] then 0 else Sum(xs[..|xs| - 1]) + xs[|xs| - 1]
  }

  /** A sum adds up: the sum of one sample is that sample, and sums of parts add. */
  lemma {:induction false} SumExactly(xs: seq<nat>, ys: seq<nat>, x: nat)
    ensures Sum([x]) == x && Sum(xs + ys) == Sum(xs) + Sum(ys)
    decreases |ys|
  {
    assert [x][..0] == [];
    if ys == [] {
      assert xs + ys == xs;
    } else {
      var init := ys[..|ys| - 1];
      SumExactly(xs, init, x);
      assert (xs + ys)[..|xs + ys| - 1] == xs + init;
    }
  }

  function Max(xs: seq<nat>): (m: nat)
    ensures forall k | 0 <= k < |xs| :: xs[k] <= m
    ensures xs != [] ==> m in xs
    ensures xs == [] ==> m == 0
  {
    if xs == [] then 0
    else
      var m := Max(xs[..|xs| - 1]);
      if xs[|xs| - 1] > m then xs[|xs| - 1]
      else if |xs| == 1 then assert m == 0; xs[0]
      else m
  }

  lemma {:induction false} SamplesBounded(rounds: seq<Round>, cmd: nat)
    requires AllFit(rounds)
    ensures |Samples(rounds, cmd)| <= |rounds|
    ensures forall k | 0 <= k < |Samples(rounds, cmd)| :: Samples(rounds, cmd)[k] < U32
  {
    if rounds != [] {
      SamplesBounded(rounds[..|rounds| - 1], cmd);
    }
  }

  /** A total is at most the count times the maximum. */
  lemma {:induction false} SumAtMost(xs: seq<nat>, m: nat)
    requires forall k | 0 <= k < |xs| :: xs[k] <= m
    ensures Sum(xs) <= |xs| * m
  {
    if xs != [] {
      SumAtMost(xs[..|xs| - 1], m);
      assert |xs| * m == (|xs| - 1) * m + m;
    }
  }

  predicate AllOccur(rounds: seq<Round>)
    requires AllFit(rounds)
  {
    forall c | 0 <= c < TEE_CMD_RELEASE :: Samples(rounds, c) != []
  }

  /** Every kept round is a sample of exactly one of the five commands. */
  lemma {:induction false} SamplesPartition(rounds: seq<Round>)
    requires AllFit(rounds)
    ensures |Samples(rounds, 0)| + |Samples(rounds, 1)| + |Samples(rounds, 2)| + |Samples(rounds, 3)| + |Samples(rounds, 4)|
            == |rounds|
  {
    if rounds != [] {
      SamplesPartition(rounds[..|rounds| - 1]);
    }
  }

  /**
   * For every iteration count an int can hold, neither the 32-bit counters nor the 64-bit totals overflow,
   * and the average, computed in 64 bits, never exceeds the maximum, so storing it in 32 bits is exact.
   */
  lemma StatisticsFit(rounds: seq<Round>, cmd: nat)
    requires AllFit(rounds) && |rounds| < 0x8000_0000
    ensures var xs := Samples(rounds, cmd);
      && |xs| < U32 && Max(xs) < U32 && Sum(xs) <= |xs| * Max(xs) < U64
      && (xs != [] ==> Sum(xs) / |xs| <= Max(xs))
  {
    var xs := Samples(rounds, cmd);
    SamplesBounded(rounds, cmd);
    SumAtMost(xs, Max(xs));
    ProductBelow(|xs|, Max(xs));
    if xs != [] {
      QuotientAtMost(Sum(xs), |xs|, Max(xs));
    }
  }

  lemma ProductBelow(a: nat, b: nat)
    requires a < 0x8000_0000 && b < U32
    ensures a * b < U64
  {
    assert a * b <= a * U32;
  }

  lemma QuotientAtMost(sum: nat, n: nat, m: nat)
    requires 0 < n && sum <= n * m
    ensures sum / n <= m
  {
    var q := sum / n;
    assert n * q <= sum;
    assert n * (m - q) == n * m - n * q;
    NotNegative(n, m - q);
  }

  lemma NotNegative(n: nat, d: int)
    requires 0 < n && 0 <= n * d
    ensures 0 <= d
  {
  }

  lemma WordsFit(rounds: seq<Round>, cmd: nat)
    requires AllFit(rounds) && |rounds| < 0x8000_0000
    ensures |Samples(rounds, cmd)| < U32 && Sum(Samples(rounds, cmd)) < U64
  {
    StatisticsFit(rounds, cmd);
  }

  /** One entry of g_perf. */
  datatype Perf = Perf(runs: nat, max: nat, total: nat)

  /** Count, maximum and sum of a command's samples. */
  function Stats(rounds: seq<Round>, cmd: nat): Perf
    requires AllFit(rounds)
  {
    var xs := Samples(rounds, cmd);
    Perf(|xs|, Max(xs), Sum(xs))
  }

  /** One entry after a sample, in the machine's word sizes. */
  function Updated(p: Perf, t: nat): Perf {
    Perf((p.runs + 1) % U32, if t > p.max then t else p.max, (p.total + t) % U64)
  }

  lemma UpdatedFits(p: Perf, t: nat)
    requires p.runs + 1 < U32 && p.total + t < U64
    ensures Updated(p, t) == Perf(p.runs + 1, if t > p.max then t else p.max, p.total + t)
  {
  }

  lemma StatsSnoc(xs: seq<nat>, t: nat)
    ensures Sum(xs + [t]) == Sum(xs) + t
    ensures Max(xs + [t]) == if t > Max(xs) then t else Max(xs)
  {
    assert (xs + [t])[..|xs|] == xs;
  }

  lemma StatsStep(rounds: seq<Round>, i: nat, cmd: nat)
    requires AllFit(rounds) && i < |rounds| < 0x8000_0000
    ensures Stats(rounds[..i + 1], cmd)
            == if Cmd(rounds[i]) == cmd then Updated(Stats(rounds[..i], cmd), Cost(rounds[i])) else Stats(rounds[..i], cmd)
  {
    var now := rounds[..i + 1];
    assert now[..i] == rounds[..i];
    WordsFit(now, cmd);
    if Cmd(rounds[i]) == cmd {
      var xs, t := Samples(rounds[..i], cmd), Cost(rounds[i]);
      assert Samples(now, cmd) == xs + [t];
      StatsSnoc(xs, t);
      UpdatedFits(Stats(rounds[..i], cmd), t);
    } else {
      assert Samples(now, cmd) == Samples(rounds[..i], cmd) + [] == Samples(rounds[..i], cmd);
    }
  }

  lemma SamplesSnoc(rounds: seq<Round>, r: Round, cmd: nat)
    requires AllFit(rounds) && RoundFits(r)
    ensures AllFit(rounds + [r])
    ensures Samples(rounds + [r], cmd) == Samples(rounds, cmd) + if r.rands[0] % 5 == cmd then [Cost(r)] else []
  {
    assert (rounds + [r])[..|rounds|] == rounds;
  }

  /** One more round changes the statistics of its own command alone: one run more, its microseconds counted in. */
  lemma {:induction false} StatsExactly(rounds: seq<Round>, r: Round, cmd: nat)
    requires AllFit(rounds) && RoundFits(r)
    ensures AllFit(rounds + [r])
    ensures var was, now := Stats(rounds, cmd), Stats(rounds + [r], cmd);
      var t := Cost(r);
      now == if r.rands[0] % 5 == cmd then Perf(was.runs + 1, if t > was.max then t else was.max, was.total + t) else was
  {
    SamplesSnoc(rounds, r, cmd);
    var xs, now, t := Samples(rounds, cmd), Samples(rounds + [r], cmd), Cost(r);
    if r.rands[0] % 5 == cmd {
      assert now == xs + [t];
      StatsSnoc(xs, t);
    } else {
      assert now == xs + [] == xs;
    }
  }

  /** It starts with nothing, and a round costs its microseconds in 32 bits. */
  lemma CostExactly(r: Round, cmd: nat)
    ensures Stats([], cmd) == Perf(0, 0, 0)
    ensures Cost(r) == (r.end.usec - r.start.usec) % 4294967296
  {
  }

  predicate AllCounted(table: seq<Perf>) {
    forall c | 0 <= c < |table| :: table[c].runs != 0
  }

  lemma CountedIffOccurs(rounds: seq<Round>, table: seq<Perf>)
    requires AllFit(rounds) && |table| == TEE_CMD_RELEASE
    requires forall c | 0 <= c < TEE_CMD_RELEASE :: table[c] == Stats(rounds, c)
    ensures AllOccur(rounds) <==> AllCounted(table)
  {
    assert forall c | 0 <= c < TEE_CMD_RELEASE :: table[c].runs == |Samples(rounds, c)|;
  }

  /** The RELEASE of a session reuses the buffer of its last round. */
  function ReleaseAfter(rounds: seq<Round>, n: nat): Packet
    requires AllFit(rounds) && 0 < n <= |rounds|
  {
    PacketOf(rounds[n - 1]).(cmd := TEE_CMD_RELEASE)
  }

  // ------------------------------------------------------------------ the code

  /** How the test loop ends: with the averages, or stopped by a fault of the program itself. */
  datatype Ending = Printed(averages: seq<nat>) | NullPerf | DividedByZero(cmd: nat)

  class TestDriver {
    // The request buffer.
    var cmd: nat
    var spiNum: nat
    var i2cNum: nat
    var bufLen: nat
    var str: seq<char>
    const data: array<nat>

    /** The status word of the reply buffer. */
    var ok: bool

    /** g_perf: null until somebody binds it. */
    var perf: array?<Perf>

    /** Every request handed to tee_cmd so far. */
    var sent: seq<Packet>

    /** In every reachable state: the request is in bounds and its name is terminated. */
    ghost predicate Valid() reads this {
      && |str| == STR_LEN && data.Length == DATA_LEN
      && (perf != null ==> perf.Length == TEE_CMD_RELEASE)
      && cmd <= TEE_CMD_RELEASE && bufLen % 32 == 0 && bufLen <= MAX_PAYLOAD
      && forall k | |TEST_FILE| <= k < STR_LEN :: str[k] == '\0'
    }

    /** What the request buffer holds. */
    function Current(): Packet
      reads this, data
    {
      Packet(cmd, CString(str), spiNum, i2cNum, bufLen, Bytes(data[..]))
    }

    /** init: the device is zeroed, and g_perf is not assigned. */
    constructor ()
      ensures Valid() && fresh(data) && ok && sent == [] && perf == null
      ensures str == seq(STR_LEN, _ => '\0')
    {
      cmd, spiNum, i2cNum, bufLen, ok, sent, perf := 0, 0, 0, 0, true, [], null;
      str := seq(STR_LEN, _ => '\0');
      data := new nat[DATA_LEN](_ => 0);
    }

    /** Not in the source: what init would have to do for the statistics to have a place. */
    method BindPerf()
      requires Valid()
      modifies this`perf
      ensures Valid() && perf != null && fresh(perf)
      ensures perf[..] == seq(TEE_CMD_RELEASE, _ => Perf(0, 0, 0))
    {
      perf := new Perf[TEE_CMD_RELEASE](_ => Perf(0, 0, 0));
    }

    /**
     * random_cmd_buf.  BUF_LEN is an unparenthesised product, so the length is a remainder modulo 1024,
     * times 32.  Only the name's eight characters are copied, without a terminator.
     */
    method RandomCmdBuf(rands: seq<nat>)
      requires Valid() && |rands| == 2 + DATA_LEN
      modifies this`cmd, this`spiNum, this`i2cNum, this`bufLen, this`str, data
      ensures Valid() && spiNum == 0 && i2cNum == 0x2e
      ensures cmd == rands[0] % TEE_CMD_RELEASE
      ensures bufLen == rands[1] % 1024 * 32
      ensures str == TEST_FILE + old(str)[|TEST_FILE|..] && CString(str) == TEST_FILE
      // The array is filled from the end.
      ensures forall j | 0 <= j < DATA_LEN :: data[j] == rands[DATA_LEN + 1 - j]
    {
      var len := DATA_LEN;
      spiNum := 0;
      i2cNum := 0x2e;
      cmd := rands[0] % TEE_CMD_RELEASE;
      bufLen := rands[1] % 1024 * 32;
      str := TEST_FILE + str[|TEST_FILE|..];
      NameIsTerminated(str);
      while len != 0
        invariant 0 <= len <= DATA_LEN
        invariant forall j | len <= j < DATA_LEN :: data[j] == rands[DATA_LEN + 1 - j]
        modifies data
      {
        len := len - 1;
        data[len] := rands[DATA_LEN + 1 - len];
      }
    }

    /** collect_performance_data, in the machine's word sizes. */
    method CollectPerformanceData(t: nat)
      requires Valid() && perf != null && cmd < TEE_CMD_RELEASE
      modifies perf
      ensures Valid()
      ensures var was := old(perf[cmd]);
        perf[..] == old(perf[..])[cmd :=
          Perf((was.runs + 1) % 4294967296, if t > was.max then t else was.max, (was.total + t) % 18446744073709551616)]
    {
      var p := perf[cmd];
      p := p.(runs := (p.runs + 1) % U32);
      if t > p.max {
        p := p.(max := t);
      }
      perf[cmd] := p.(total := (p.total + t) % U64);
    }

    /** print_data: it divides by every counter, used or not. */
    method PrintData() returns (e: Ending)
      requires Valid()
      ensures perf == null ==> e == NullPerf
      ensures perf != null ==> (e.Printed? <==> AllCounted(perf[..]))
      ensures perf != null ==> match e
        case Printed(averages) =>
          |averages| == TEE_CMD_RELEASE &&
          forall c | 0 <= c < TEE_CMD_RELEASE :: perf[c].runs != 0 && averages[c] == perf[c].total / perf[c].runs % U32
        case DividedByZero(c) => c < TEE_CMD_RELEASE && perf[c].runs == 0
        case NullPerf => false
    {
      if perf == null {
        return NullPerf;
      }
      var averages, i := [], 0;
      while i < TEE_CMD_RELEASE
        invariant 0 <= i <= TEE_CMD_RELEASE && |averages| == i
        invariant forall c | 0 <= c < i :: perf[c].runs != 0 && averages[c] == perf[c].total / perf[c].runs % U32
      {
        if perf[i].runs == 0 {
          assert perf[..][i].runs == 0;
          return DividedByZero(i);
        }
        averages := averages + [perf[i].total / perf[i].runs % U32];
        i := i + 1;
      }
      e := Printed(averages);
    }

    /** The statistics table holds exactly what the rounds `rounds[..k]` measured. */
    ghost predicate Records(rounds: seq<Round>, k: nat)
      requires Valid() && AllFit(rounds) && k <= |rounds|
      reads this, perf
    {
      perf != null && forall c | 0 <= c < TEE_CMD_RELEASE ::
        perf[c] == Stats(rounds[..k], c)
    }

    /** Fill the request and make the call; a reply that does not arrive leaves the status as it was. */
    method Call(r: Round)
      requires Valid() && RoundFits(r)
      modifies this`cmd, this`spiNum, this`i2cNum, this`bufLen, this`str, this`ok, this`sent, data
      ensures Valid() && cmd == Cmd(r) && sent == old(sent) + [PacketOf(r)] && Current() == PacketOf(r)
      ensures forall j | 0 <= j < DATA_LEN :: PacketOf(r).payload[4 * j..4 * j + 4] == Le(data[j], 4)
      ensures ok == match r.reply case Some(b) => b case None => old(ok)
    {
      RandomCmdBuf(r.rands);
      assert data[..] == seq(DATA_LEN, j requires 0 <= j < DATA_LEN => r.rands[DATA_LEN + 1 - j]);
      forall j | 0 <= j < DATA_LEN ensures PacketOf(r).payload[4 * j..4 * j + 4] == Le(data[j], 4) {
        BytesExactly(data[..], j);
      }
      sent := sent + [Current()];
      if r.reply.Some? {
        ok := r.reply.value;
      }
    }

    /** Round `i` of the loop, up to the test of the status. */
    method Issue(rounds: seq<Round>, i: nat, ghost ok0: bool, ghost sent0: seq<Packet>)
      requires Valid() && AllFit(rounds) && i < |rounds|
      requires ok == StatusAfter(ok0, rounds[..i]) && Kept(ok0, rounds[..i]) == i && sent == sent0 + Packets(rounds, i)
      modifies this`cmd, this`spiNum, this`i2cNum, this`bufLen, this`str, this`ok, this`sent, data
      ensures Valid() && cmd == Cmd(rounds[i])
      ensures ok == StatusAfter(ok0, rounds[..i + 1]) && (ok ==> Kept(ok0, rounds[..i + 1]) == i + 1)
      ensures sent == sent0 + Packets(rounds, i + 1) && Current() == sent[|sent| - 1]
    {
      Call(rounds[i]);
      KeptStep(ok0, rounds, i);
      ConcatAssociates(sent0, Packets(rounds, i), [PacketOf(rounds[i])]);
    }

    /** Recording round `i` completes the table for the rounds up to it; no word overflows. */
    method Collect(rounds: seq<Round>, i: nat)
      requires Valid() && AllFit(rounds) && i < |rounds| < 0x8000_0000
      requires Records(rounds, i) && cmd == Cmd(rounds[i])
      modifies perf
      ensures Valid() && Records(rounds, i + 1)
    {
      ghost var before := perf[..];
      CollectPerformanceData(Cost(rounds[i]));
      assert perf[..] == before[cmd := Updated(before[cmd], Cost(rounds[i]))];
      forall c | 0 <= c < TEE_CMD_RELEASE ensures perf[c] == Stats(rounds[..i + 1], c) {
        StatsStep(rounds, i, c);
        assert perf[c] == perf[..][c] && before[c] == Stats(rounds[..i], c);
      }
    }

    /** The loop of random_test has passed `i` rounds. */
    ghost predicate Passed(rounds: seq<Round>, i: nat, ok0: bool, sent0: seq<Packet>)
      requires AllFit(rounds) && i <= |rounds|
      reads this, perf, data
    {
      && Valid() && StatusAfter(ok0, rounds[..i]) == ok && Kept(ok0, rounds[..i]) == i
      && (if perf != null then Records(rounds, i) else i == 0)
      && sent == sent0 + Packets(rounds, i) && (0 < i ==> Current() == sent[|sent| - 1])
    }

    /** It has ended; `faulted` if it stopped in collect_performance_data for want of a table. */
    ghost predicate Ended(rounds: seq<Round>, ok0: bool, sent0: seq<Packet>, faulted: bool)
      requires AllFit(rounds)
      reads this, perf, data
    {
      && Valid() && (faulted ==> perf == null)
      && (perf != null ==> Records(rounds, Kept(ok0, rounds)))
      && sent == sent0 + Packets(rounds, Issued(perf != null, ok0, rounds)) && sent != [] && Current() == sent[|sent| - 1]
    }

    /** A bad status, or a missing table, ends the loop in round `i`. */
    lemma StopsHere(rounds: seq<Round>, i: nat, ok0: bool, sent0: seq<Packet>)
      requires Valid() && AllFit(rounds) && i < |rounds| && (!ok || perf == null)
      requires StatusAfter(ok0, rounds[..i + 1]) == ok && Kept(ok0, rounds[..i]) == i
      requires if perf != null then Records(rounds, i) else i == 0
      requires sent == sent0 + Packets(rounds, i + 1) && Current() == sent[|sent| - 1]
      ensures Ended(rounds, ok0, sent0, ok)
    {
      if !ok {
        KeptIs(ok0, rounds, i);
      }
    }

    /** The body of the loop. */
    method Pass(rounds: seq<Round>, i: nat, ghost ok0: bool, ghost sent0: seq<Packet>) returns (stop: bool, faulted: bool)
      requires AllFit(rounds) && i < |rounds| < 0x8000_0000 && Passed(rounds, i, ok0, sent0)
      modifies this`cmd, this`spiNum, this`i2cNum, this`bufLen, this`str, this`ok, this`sent, data, perf
      ensures if stop then Ended(rounds, ok0, sent0, faulted) else Passed(rounds, i + 1, ok0, sent0)
    {
      Issue(rounds, i, ok0, sent0);
      if !ok {
        StopsHere(rounds, i, ok0, sent0);
        return true, false;
      }
      if perf == null {
        StopsHere(rounds, i, ok0, sent0);
        return true, true;
      }
      Collect(rounds, i);
      return false, false;
    }

    /** The loop of random_test. */
    method RunRounds(rounds: seq<Round>) returns (faulted: bool)
      requires Valid() && AllFit(rounds) && 0 < |rounds| < 0x8000_0000
      requires perf != null ==> Records(rounds, 0)
      modifies this`cmd, this`spiNum, this`i2cNum, this`bufLen, this`str, this`ok, this`sent, data, perf
      ensures Valid() && (faulted ==> perf == null)
      ensures perf != null ==> Records(rounds, Kept(old(ok), rounds))
      ensures sent == old(sent) + Packets(rounds, Issued(perf != null, old(ok), rounds))
      ensures sent != [] && Current() == sent[|sent| - 1]
    {
      var i := 0;
      assert rounds[..0] == [];
      while i < |rounds|
        invariant 0 <= i <= |rounds| && Passed(rounds, i, old(ok), old(sent))
      {
        var stop;
        stop, faulted := Pass(rounds, i, old(ok), old(sent));
        if stop {
          return;
        }
        i := i + 1;
      }
      KeptIs(old(ok), rounds, i);
      faulted := false;
    }

    /**
     * random_test.  With the table bound and zeroed, every round before the first bad status is recorded
     * under its command, and the averages are printed exactly when every command occurred among them.
     * With the table unbound, as init leaves it, the program always faults.
     */
    method RandomTest(rounds: seq<Round>) returns (e: Ending)
      requires Valid() && AllFit(rounds) && 0 < |rounds| < 0x8000_0000
      requires perf != null ==> Records(rounds, 0)
      modifies this`cmd, this`spiNum, this`i2cNum, this`bufLen, this`str, this`ok, this`sent, data, perf
      ensures Valid()
      ensures perf == null ==> e == NullPerf
      ensures perf != null ==>
        Records(rounds, Kept(old(ok), rounds)) && (e.Printed? <==> AllOccur(rounds[..Kept(old(ok), rounds)]))
      ensures sent == old(sent) + Packets(rounds, Issued(perf != null, old(ok), rounds))
      ensures sent != [] && Current() == sent[|sent| - 1]
    {
      var faulted := RunRounds(rounds);
      if faulted {
        return NullPerf;
      }
      ghost var kept := rounds[..Kept(old(ok), rounds)];
      if perf != null {
        CountedIffOccurs(kept, perf[..]);
      }
      e := PrintData();
    }

    /** release: the last command of a session. */
    method Release()
      requires Valid()
      modifies this`cmd, this`sent
      ensures Valid() && cmd == TEE_CMD_RELEASE && sent == old(sent) + [old(Current()).(cmd := TEE_CMD_RELEASE)]
    {
      cmd := TEE_CMD_RELEASE;
      sent := sent + [Current()];
    }

    /**
     * main after a successful init.  RELEASE is sent exactly once, and last, exactly when the statistics
     * table is bound and every command occurs among the rounds kept; else it is never sent.
     */
    method Session(rounds: seq<Round>) returns (e: Ending)
      requires Valid() && AllFit(rounds) && 0 < |rounds| < 0x8000_0000 && sent == []
      requires perf != null ==> Records(rounds, 0)
      modifies this`cmd, this`spiNum, this`i2cNum, this`bufLen, this`str, this`ok, this`sent, data, perf
      ensures Valid()
      ensures perf != null ==> Records(rounds, Kept(old(ok), rounds))
      ensures e.Printed? <==> perf != null && AllOccur(rounds[..Kept(old(ok), rounds)])
      ensures var issued := Packets(rounds, Issued(perf != null, old(ok), rounds));
        !Released(issued) && sent == if e.Printed? then issued + [ReleaseAfter(rounds, |issued|)] else issued
    {
      e := RandomTest(rounds);
      NoRelease(rounds, Issued(perf != null, old(ok), rounds));
      if e.Printed? {
        Release();
      }
    }
  }

  /** With fewer than five rounds some command never occurs, so such a test cannot end properly. */
  lemma TooFewRounds(rounds: seq<Round>)
    requires AllFit(rounds) && |rounds| < TEE_CMD_RELEASE
    ensures !AllOccur(rounds)
  {
    SamplesPartition(rounds);
  }

  /** The program as it stands: whatever happens, it faults before the session is released. */
  method MainAsWritten(rounds: seq<Round>) returns (e: Ending, sent: seq<Packet>)
    requires AllFit(rounds) && 0 < |rounds| < 0x8000_0000
    ensures e == NullPerf && sent == [PacketOf(rounds[0])] && sent[0].cmd < TEE_CMD_RELEASE
  {
    var d := new TestDriver();
    KeptIsOneOrNone(rounds);
    e := d.RandomTest(rounds);
    sent := d.sent;
  }

  lemma KeptIsOneOrNone(rounds: seq<Round>)
    requires rounds != []
    ensures Issued(false, true, rounds) == 1
  {
  }

  /** The program with the table bound. */
  method MainCorrected(rounds: seq<Round>) returns (e: Ending, sent: seq<Packet>, table: seq<Perf>)
    requires AllFit(rounds) && 0 < |rounds| < 0x8000_0000
    ensures var k := Kept(true, rounds);
      && |table| == TEE_CMD_RELEASE
      && (forall c | 0 <= c < TEE_CMD_RELEASE :: table[c] == Stats(rounds[..k], c))
      && (e.Printed? <==> AllOccur(rounds[..k]))
      && var issued := Packets(rounds, Issued(true, true, rounds));
         sent == if e.Printed? then issued + [ReleaseAfter(rounds, |issued|)] else issued
  {
    var d := new TestDriver();
    d.BindPerf();
    assert rounds[..0] == [];
    assert forall c | 0 <= c < TEE_CMD_RELEASE :: d.perf[c] == d.perf[..][c];
    e := d.Session(rounds);
    sent, table := d.sent, d.perf[..];
  }

  // ------------------------------------------------------------------ the requests

  function PayloadLen(r: nat): nat {
    r % 1024 * 32
  }

  /** Every generated length is a multiple of 32 and at most 32736; every such length is generated. */
  lemma PayloadLenExactly(len: nat)
    ensures (exists r: nat :: PayloadLen(r) == len) <==> len % 32 == 0 && len <= MAX_PAYLOAD
  {
    if len % 32 == 0 && len <= MAX_PAYLOAD {
      assert PayloadLen(len / 32) == len;
    }
  }

  /** An int array as bytes. */
  function Bytes(words: seq<nat>): (b: Buffer)
    ensures |b| == 4 * |words|
  {
    if words == [] then [] else Le(words[0], 4) + Bytes(words[1..])
  }

  /** Word by word, each as four bytes. */
  lemma {:induction false} BytesExactly(words: seq<nat>, j: nat)
    requires j < |words|
    ensures Bytes(words)[4 * j..4 * j + 4] == Le(words[j], 4)
    decreases j
  {
    var rest := Bytes(words[1..]);
    assert Bytes(words) == Le(words[0], 4) + rest;
    if j > 0 {
      BytesExactly(words[1..], j - 1);
      assert Bytes(words)[4 * j..4 * j + 4] == rest[4 * (j - 1)..4 * (j - 1) + 4];
    }
  }

  /** The payload of a round; the array is filled from the end. */
  function PayloadBytes(r: Round): (b: Buffer)
    requires RoundFits(r)
    ensures |b| == BUF_LEN
  {
    Bytes(seq(DATA_LEN, j requires 0 <= j < DATA_LEN => r.rands[DATA_LEN + 1 - j]))
  }

  /** The C string in a character array: everything before the first NUL. */
  function CString(str: seq<char>): string {
    if str == [] || str[0] == '\0' then [] else [str[0]] + CString(str[1..])
  }

  /** Copying the name without its terminator leaves a terminated name, because the array was zeroed. */
  lemma NameIsTerminated(str: seq<char>)
    requires |TEST_FILE| < |str| && str[..|TEST_FILE|] == TEST_FILE && str[|TEST_FILE|] == '\0'
    ensures CString(str) == TEST_FILE
  {
    CStringUpTo(str, |TEST_FILE|);
  }

  lemma {:induction false} CStringUpTo(str: seq<char>, n: nat)
    requires n < |str| && str[n] == '\0' && forall k | 0 <= k < n :: str[k] != '\0'
    ensures CString(str) == str[..n]
    decreases n
  {
    if n > 0 {
      CStringUpTo(str[1..], n - 1);
      assert str[..n] == [str[0]] + str[1..][..n - 1];
    }
  }
}
