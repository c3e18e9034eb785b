/** What clients can rely on over whole runs of the trusted application's storage commands. */
module StoreTheory {
  import opened Common
  import opened Vendor
  import opened TrustedApp
  import opened Words

  predicate Stores(turn: Turn, name: string) {
    turn.req.cmd == TEE_CMD_WRITE_TEST && turn.req.name == name
  }

  predicate UsesStorage(turn: Turn) {
    turn.req.cmd == TEE_CMD_WRITE_TEST || turn.req.cmd == TEE_CMD_READ_TEST
  }

  function Capacity(out: Out, wide: bool): nat
    requires OutFits(out)
  {
    LoadLen(out.bufLen, out.buf, wide)
  }

  function Payload(req: Request): (data: Buffer)
    requires RequestFits(req)
    ensures |data| == req.bufLen
  {
    req.buf[..req.bufLen]
  }

  /** The bytes of `content` that survive in the payload when the size is stored through `size_t *`. */
  predicate Delivered(out: Out, content: Buffer)
    requires OutFits(out) && |content| <= BUF_LEN
  {
    out.buf[..|content|] == content
  }

  /** The first four bytes, or all of a shorter content, are zero. */
  predicate ZeroHead(content: Buffer) {
    forall k | 0 <= k < |content| && k < 4 :: content[k] == 0
  }

  // ------------------------------------------------------------------ one command

  /** The number of bytes a vendor that can move `io` bytes moves of `len`; negative codes are failures. */
  function Moves(io: int, len: nat): (n: nat)
    ensures n == 0 <==> io <= 0 || len == 0
    ensures 0 < io && 0 < len ==> (n == io <= len || n == len <= io)
  {
    if io < 0 then 0 else if io < len then io else len
  }

  /** When a read succeeds, what it reports as size and code in each case, and where its bytes end up. */
  lemma FetchExactly(out: Out, content: Buffer, sizeRet: int, io: int, strict: bool, wide: bool)
    requires OutFits(out) && |content| <= BUF_LEN
    ensures var r := Fetch(out, content, sizeRet, io, strict, wide);
      var fits := 0 <= sizeRet && 0 < |content| <= Capacity(out, wide);
      && (r.ok <==> out.ok && fits && (if strict then |content| <= io else 0 <= io))
      && Capacity(r, wide) == r.bufLen == (if sizeRet < 0 then 0 else |content|)
      && r.sysErr == (if !fits then sizeRet else if io < 0 then io else Moves(io, |content|))
      && (forall k | 4 <= k < BUF_LEN ::
            r.buf[k] == if fits && k < Moves(io, |content|) then content[k] else out.buf[k])
      && (forall k | 0 <= k < 4 ::
            r.buf[k] == if wide then 0 else if fits && k < Moves(io, |content|) then content[k] else out.buf[k])
      && (r.ok && |content| <= io ==> (Delivered(r, content) <==> !wide || ZeroHead(content)))
  {
    FetchBytes(out, content, sizeRet, io, strict, wide);
    var r := Fetch(out, content, sizeRet, io, strict, wide);
    if r.ok && |content| <= io {
      if !wide || ZeroHead(content) {
        assert r.buf[..|content|] == content;
      } else {
        var k :| 0 <= k < |content| && k < 4 && content[k] != 0;
        assert r.buf[..|content|][k] == r.buf[k] != content[k];
      }
    }
  }

  lemma FetchBytes(out: Out, content: Buffer, sizeRet: int, io: int, strict: bool, wide: bool)
    requires OutFits(out) && |content| <= BUF_LEN
    ensures var r := Fetch(out, content, sizeRet, io, strict, wide);
      var fits := 0 <= sizeRet && 0 < |content| <= Capacity(out, wide);
      && (forall k | 4 <= k < BUF_LEN ::
            r.buf[k] == if fits && k < Moves(io, |content|) then content[k] else out.buf[k])
      && (forall k | 0 <= k < 4 ::
            r.buf[k] == if wide then 0 else if fits && k < Moves(io, |content|) then content[k] else out.buf[k])
  {
    if 0 <= sizeRet && 0 < |content| <= Capacity(out, wide) {
      var data := content[..Moves(io, |content|)];
      MovedBytes(out.buf, content, |data|);
      StoredBytes(out.(buf := Moved(out.buf, data)), wide, |content|);
    } else {
      StoredBytes(out, wide, if sizeRet < 0 then 0 else |content|);
    }
  }

  lemma MovedBytes(buf: Buffer, content: Buffer, n: nat)
    requires n <= |content| <= |buf|
    ensures forall k | 0 <= k < |buf| :: Moved(buf, content[..n])[k] == if k < n then content[k] else buf[k]
  {
  }

  lemma StoredBytes(out: Out, wide: bool, size: nat)
    requires OutFits(out) && size < WORD
    ensures forall k | 0 <= k < BUF_LEN :: StoreLen(out, wide, size).buf[k] == if wide && k < 4 then 0 else out.buf[k]
  {
  }

  /** A concrete read that a 64-bit size_t corrupts: the vendor does everything right, status is OK. */
  lemma WideReadLosesHead()
    ensures var out := Out(true, 0, 5, seq(BUF_LEN, _ => 0));
      var r := Fetch(out, [1, 2, 3, 4, 5], 0, 5, true, true);
      OutFits(out) && r.ok && r.buf[..5] == [0, 0, 0, 0, 5]
  {
    var out := Out(true, 0, 5, seq(BUF_LEN, _ => 0));
    var content: Buffer := [1, 2, 3, 4, 5];
    var moved := Moved(out.buf, content);
    assert moved[..5] == content && content[..5] == content;
    assert moved[4] == 5;
  }

  /** On every platform, status is OK after a write exactly when the following all went well. */
  lemma WriteSucceedsExactly(p: Platform, files: Files, out: Out, name: string, data: Buffer, plan: Plan)
    ensures WriteSpec(p, files, out, name, data, plan).1.ok <==>
      && out.ok && 0 <= plan.io
      && match p
         case Qsee => data != [] && 0 <= plan.open
         case Isee(_) => 0 <= plan.open && !Refused(p, plan.open)
         case Trusty => 0 <= plan.session && 0 <= plan.open
  {
  }

  /** What a write reports, case by case: the code of the call that failed, or the bytes moved. */
  lemma WriteReportsExactly(p: Platform, files: Files, out: Out, name: string, data: Buffer, plan: Plan)
    ensures var r := WriteSpec(p, files, out, name, data, plan).1;
      && r.bufLen == out.bufLen && r.buf == out.buf
      && r.sysErr == (if p == Qsee && data == [] then out.sysErr
                      else if p == Trusty && plan.session < 0 then plan.session
                      else if plan.open < 0 || (p == Isee(false) && plan.open != 0) then plan.open
                      else if plan.io < 0 then plan.io
                      else Moves(plan.io, |data|))
  {
  }

  /** What a write on QSEE or iSee leaves in the store, byte by byte; no other file is touched. */
  lemma DescriptorWriteStoresExactly(p: Platform, files: Files, out: Out, name: string, data: Buffer, plan: Plan)
    requires !p.Trusty?
    ensures var after := WriteSpec(p, files, out, name, data, plan).0;
      var was := ContentOf(files, name);
      && (forall other | other != name :: (other in after <==> other in files) && (other in files ==> after[other] == files[other]))
      && (plan.open < 0 || (p == Qsee && data == []) ==> after == files)
      && (0 <= plan.open && (p == Qsee ==> data != []) ==>
            var n := if p == Isee(false) && plan.open != 0 then 0 else Moves(plan.io, |data|);
            && name in after && |after[name]| == (if n < |was| then |was| else n)
            && forall k | 0 <= k < |after[name]| :: after[name][k] == if k < n then data[k] else was[k])
  {
  }

  /** What a write on Trusty leaves in the store: all or nothing, depending on the commit, and truncated. */
  lemma TrustyWriteStoresExactly(files: Files, out: Out, name: string, data: Buffer, plan: Plan)
    ensures WriteSpec(Trusty, files, out, name, data, plan).0
            == if 0 <= plan.session && 0 <= plan.open && plan.commit then files[name := data[..Moves(plan.io, |data|)]] else files
  {
  }

  /** A read that does not get its file open and accepted. */
  lemma RefusedReadExactly(p: Platform, wide: bool, files: Files, out: Out, name: string, plan: Plan)
    requires OutFits(out) && StoreFits(files)
    requires if p == Trusty then plan.session < 0 || plan.open < 0 else plan.open < 0 || (p == Isee(false) && plan.open != 0)
    ensures var (after, r) := ReadSpec(p, wide, files, out, name, plan);
      && after == (if plan.open < 0 || p == Trusty || name in files then files else files[name := []])
      && !r.ok && r.sysErr == (if p == Trusty && plan.session < 0 then plan.session else plan.open)
      && r.bufLen == (if p == Trusty && 0 <= plan.session then 0 else out.bufLen)
      && r.buf[4..] == out.buf[4..] && (!wide || !p.Trusty? || plan.session < 0 ==> r.buf == out.buf)
  {
  }

  /** A read that does: it makes a missing file, empty, and is otherwise a fetch of the file. */
  lemma OpenedReadExactly(p: Platform, wide: bool, files: Files, out: Out, name: string, plan: Plan)
    requires OutFits(out) && StoreFits(files)
    requires if p == Trusty then 0 <= plan.session && 0 <= plan.open else 0 <= plan.open && (p == Isee(false) ==> plan.open == 0)
    ensures var (after, r) := ReadSpec(p, wide, files, out, name, plan);
      var content := ContentOf(files, name);
      && after == (if name in files || (p == Trusty && !plan.commit) then files else files[name := []])
      && |content| <= BUF_LEN
      && r == Fetch(out, content, if p.Isee? && 0 <= plan.size then |content| else plan.size, plan.io, p == Qsee, wide)
  {
  }

  /** SPI_TEST and READ_ID: two bytes arrive or none, and no failure goes unreported. */
  lemma SpiExactly(p: Platform, wide: bool, st: TaState, out: Out, turn: Turn)
    requires OutFits(out) && StoreFits(st.files) && RequestFits(turn.req) && PlanFits(turn.plan, st.fds)
    requires turn.req.cmd == TEE_CMD_SPI_TEST || turn.req.cmd == TEE_CMD_READ_ID
    ensures var (after, r) := RouterSpec(p, wide, st, out, turn.req, turn.plan);
      && after == st && r.bufLen == out.bufLen
      && (r.ok <==> turn.plan.spiXfer == 0 && (p == Qsee ==> turn.plan.spiOpen == 0))
      && r.sysErr == (if p == Qsee && turn.plan.spiOpen != 0 then turn.plan.spiOpen else turn.plan.spiXfer)
      && r.buf[..2] == (if r.ok then turn.plan.rx else out.buf[..2]) && r.buf[2..] == out.buf[2..]
  {
  }

  /** The commands that do nothing but report: I2C_TEST and RELEASE report OK, unknown ones an error. */
  lemma PlainCommandsExactly(p: Platform, wide: bool, st: TaState, out: Out, turn: Turn)
    requires OutFits(out) && StoreFits(st.files) && RequestFits(turn.req) && PlanFits(turn.plan, st.fds)
    ensures var r := RouterSpec(p, wide, st, out, turn.req, turn.plan);
      && (turn.req.cmd == 1 ==> r == (st, out.(ok := true)))
      && (turn.req.cmd == 5 ==> r == (st.(live := false), out.(ok := true)))
      && (6 <= turn.req.cmd ==> r == (st, out.(ok := false)))
  {
  }

  /**
   * A Trusty write that reported OK has stored all of `data`, unless it was there already, exactly when
   * the commit went through and the vendor took every byte: the code checks neither.
   */
  lemma TrustyWriteDurableExactly(files: Files, out: Out, name: string, data: Buffer, plan: Plan)
    requires WriteSpec(Trusty, files, out, name, data, plan).1.ok
    requires !(name in files && files[name] == data)
    ensures var after := WriteSpec(Trusty, files, out, name, data, plan).0;
      (name in after && after[name] == data) <==> plan.commit && |data| <= plan.io
  {
    assert data[..|data|] == data;
  }

  /** A Trusty write that failed in the transfer has destroyed what was there. */
  lemma TrustyFailedWriteTruncates(files: Files, out: Out, name: string, data: Buffer, plan: Plan)
    requires 0 <= plan.session && 0 <= plan.open && plan.io < 0 && plan.commit
    ensures var r := WriteSpec(Trusty, files, out, name, data, plan);
      !r.1.ok && r.0 == files[name := []]
  {
  }

  /** QSEE does not truncate: a file holds exactly the data last written in full, if that was not shorter. */
  lemma QseeWriteReplacesExactly(before: Buffer, data: Buffer)
    ensures Overlay(before, data) == data <==> |before| <= |data|
    ensures Overlay(before, data)[..|data|] == data
  {
  }

  // ------------------------------------------------------------------ runs

  lemma RunSpecLast(p: Platform, wide: bool, st: TaState, out: Out, turns: seq<Turn>)
    requires OutFits(out) && StoreFits(st.files) && RunFits(p, wide, st, out, turns) && turns != []
    ensures var init, last := turns[..|turns| - 1], turns[|turns| - 1];
      && RunFits(p, wide, st, out, init) && RequestFits(last.req)
      && var before := RunSpec(p, wide, st, out, init);
         PlanFits(last.plan, before.0.fds) &&
         RunSpec(p, wide, st, out, turns) == RouterSpec(p, wide, before.0, before.1, last.req, last.plan)
  {
  }

  lemma TurnDoesNotDisturb(p: Platform, wide: bool, st: TaState, out: Out, turn: Turn, name: string)
    requires OutFits(out) && StoreFits(st.files) && RequestFits(turn.req) && PlanFits(turn.plan, st.fds)
    requires name in st.files && !Stores(turn, name)
    ensures var files := RouterSpec(p, wide, st, out, turn.req, turn.plan).0.files;
      name in files && files[name] == st.files[name]
  {
  }

  /** A stored file is not disturbed by reads of any name, by writes to other names, or by other commands. */
  lemma {:induction false} OthersDoNotDisturb(p: Platform, wide: bool, st: TaState, out: Out, turns: seq<Turn>, name: string)
    requires OutFits(out) && StoreFits(st.files) && RunFits(p, wide, st, out, turns)
    requires name in st.files && forall k | 0 <= k < |turns| :: !Stores(turns[k], name)
    ensures var files := RunSpec(p, wide, st, out, turns).0.files;
      name in files && files[name] == st.files[name]
    decreases |turns|
  {
    if turns != [] {
      RunSpecLast(p, wide, st, out, turns);
      var init, last := turns[..|turns| - 1], turns[|turns| - 1];
      assert !Stores(last, name);
      OthersDoNotDisturb(p, wide, st, out, init, name);
      var before := RunSpec(p, wide, st, out, init);
      TurnDoesNotDisturb(p, wide, before.0, before.1, last, name);
    }
  }

  /** A command gets its file open and accepted; on iSee as written that takes descriptor 0. */
  predicate Reaches(p: Platform, plan: Plan) {
    match p
    case Qsee => 0 <= plan.open
    case Isee(_) => !Refused(p, plan.open)
    case Trusty => 0 <= plan.session && 0 <= plan.open
  }

  /** The vendor performs every step of a read of `len` bytes. */
  predicate SmoothRead(p: Platform, plan: Plan, len: nat) {
    Reaches(p, plan) && 0 <= plan.size && len <= plan.io
  }

  function SizeRet(p: Platform, plan: Plan, content: Buffer): int {
    if p.Isee? && 0 <= plan.size then |content| else plan.size
  }

  /** A routed read of an existing file, reduced to the transfer. */
  lemma ReadIsFetch(p: Platform, wide: bool, st: TaState, out: Out, read: Turn)
    requires OutFits(out) && StoreFits(st.files) && RequestFits(read.req) && PlanFits(read.plan, st.fds)
    requires read.req.cmd == TEE_CMD_READ_TEST && read.req.name in st.files && Reaches(p, read.plan)
    ensures var content := st.files[read.req.name];
      var r := RouterSpec(p, wide, st, out, read.req, read.plan);
      && r.0.files == st.files
      && r.1 == Fetch(out.(ok := true), content, SizeRet(p, read.plan, content), read.plan.io, p == Qsee, wide)
  {
  }

  /** A read the vendor performs, of a file that capacity allows for. */
  lemma SmoothReadDelivers(p: Platform, wide: bool, st: TaState, out: Out, read: Turn)
    requires OutFits(out) && StoreFits(st.files) && RequestFits(read.req) && PlanFits(read.plan, st.fds)
    requires read.req.cmd == TEE_CMD_READ_TEST && read.req.name in st.files
    requires var content := st.files[read.req.name];
      content != [] && |content| <= Capacity(out, wide) && SmoothRead(p, read.plan, |content|)
    ensures var content := st.files[read.req.name];
      var r := RouterSpec(p, wide, st, out, read.req, read.plan).1;
      && r.ok && r.bufLen == |content| && r.sysErr == |content|
      && (Delivered(r, content) <==> !wide || ZeroHead(content))
  {
    var content := st.files[read.req.name];
    ReadIsFetch(p, wide, st, out, read);
    FetchExactly(out.(ok := true), content, SizeRet(p, read.plan, content), read.plan.io, p == Qsee, wide);
  }

  lemma TrustyWriteStores(wide: bool, st: TaState, out: Out, write: Turn)
    requires OutFits(out) && StoreFits(st.files) && RequestFits(write.req) && PlanFits(write.plan, st.fds)
    requires write.req.cmd == TEE_CMD_WRITE_TEST
    requires RouterSpec(Trusty, wide, st, out, write.req, write.plan).1.ok && write.plan.commit
    ensures var w := RouterSpec(Trusty, wide, st, out, write.req, write.plan);
      var n := w.1.sysErr;
      && 0 <= n <= write.req.bufLen && (n == write.req.bufLen <==> write.req.bufLen <= write.plan.io)
      && w.0 == st.(files := st.files[write.req.name := Payload(write.req)[..n]])
  {
  }

  /**
   * Trusty storage behaves as a map from names to bytes.  After a committed write that reported OK and
   * moved n > 0 bytes, and any run that does not write the same name (failures of every kind included),
   * a read with enough capacity succeeds and reports n; the payload starts with exactly the n bytes
   * written, given that size_t has 32 bits or those bytes start with zeros.
   */
  lemma TrustyReadsBackWrite(wide: bool, st: TaState, out: Out, write: Turn, turns: seq<Turn>, read: Turn)
    requires OutFits(out) && StoreFits(st.files)
    requires RequestFits(write.req) && PlanFits(write.plan, st.fds) && write.req.cmd == TEE_CMD_WRITE_TEST
    requires var w := RouterSpec(Trusty, wide, st, out, write.req, write.plan);
      && w.1.ok && 0 < w.1.sysErr && write.plan.commit && StoreFits(w.0.files)
      && RunFits(Trusty, wide, w.0, w.1, turns)
      && var now := RunSpec(Trusty, wide, w.0, w.1, turns);
         && RequestFits(read.req) && PlanFits(read.plan, now.0.fds)
         && SmoothRead(Trusty, read.plan, w.1.sysErr) && w.1.sysErr <= Capacity(now.1, wide)
    requires forall k | 0 <= k < |turns| :: !Stores(turns[k], write.req.name)
    requires read.req.cmd == TEE_CMD_READ_TEST && read.req.name == write.req.name
    ensures var w := RouterSpec(Trusty, wide, st, out, write.req, write.plan);
      var now := RunSpec(Trusty, wide, w.0, w.1, turns);
      var r := RouterSpec(Trusty, wide, now.0, now.1, read.req, read.plan).1;
      var n := w.1.sysErr;
      && n <= write.req.bufLen && (n == write.req.bufLen <==> write.req.bufLen <= write.plan.io)
      && r.ok && r.bufLen == n && r.sysErr == n
      && (Delivered(r, Payload(write.req)[..n]) <==> !wide || ZeroHead(Payload(write.req)[..n]))
  {
    TrustyWriteStores(wide, st, out, write);
    var w := RouterSpec(Trusty, wide, st, out, write.req, write.plan);
    OthersDoNotDisturb(Trusty, wide, w.0, w.1, turns, write.req.name);
    var now := RunSpec(Trusty, wide, w.0, w.1, turns);
    SmoothReadDelivers(Trusty, wide, now.0, now.1, read);
  }

  // ------------------------------------------------------------------ QSEE and iSee: writes overlay each other

  /** Everything that reached the file, oldest first: what was there, then each successful transfer. */
  function Fold(history: seq<Buffer>): Buffer {
    if history == [] then []
    else Overlay(Fold(history[..|history| - 1]), history[|history| - 1])
  }

  function Transfers(p: Platform, turns: seq<Turn>, name: string): seq<Buffer>
    requires forall k | 0 <= k < |turns| :: RequestFits(turns[k].req)
  {
    if turns == [] then []
    else Transfers(p, turns[..|turns| - 1], name) + Transfer(p, turns[|turns| - 1], name)
  }

  lemma RunRequestsFit(p: Platform, wide: bool, st: TaState, out: Out, turns: seq<Turn>)
    requires OutFits(out) && StoreFits(st.files) && RunFits(p, wide, st, out, turns)
    ensures forall k | 0 <= k < |turns| :: RequestFits(turns[k].req)
    decreases |turns|
  {
    if turns != [] {
      RunRequestsFit(p, wide, st, out, turns[..|turns| - 1]);
    }
  }

  function ContentOf(files: Files, name: string): Buffer {
    if name in files then files[name] else []
  }

  /** What one turn adds to the history of a file. */
  function Transfer(p: Platform, turn: Turn, name: string): (added: seq<Buffer>)
    requires RequestFits(turn.req)
    ensures |added| <= 1
  {
    var n := Granted(turn.plan.io, turn.req.bufLen);
    if Stores(turn, name) && (p.Qsee? ==> 0 < turn.req.bufLen) && Reaches(p, turn.plan) && 0 <= n
    then [Payload(turn.req)[..n]] else []
  }

  /** A storage command is the storage function on the request's name and payload, its status reset to OK first. */
  lemma StorageCommandExactly(p: Platform, wide: bool, st: TaState, out: Out, turn: Turn)
    requires OutFits(out) && StoreFits(st.files) && RequestFits(turn.req) && PlanFits(turn.plan, st.fds)
    ensures var (after, r) := RouterSpec(p, wide, st, out, turn.req, turn.plan);
      && (turn.req.cmd == 2 ==>
            (after.files, r) == WriteSpec(p, st.files, out.(ok := true), turn.req.name, turn.req.buf[..turn.req.bufLen], turn.plan))
      && (turn.req.cmd == 3 ==> (after.files, r) == ReadSpec(p, wide, st.files, out.(ok := true), turn.req.name, turn.plan))
      && (turn.req.cmd != 2 && turn.req.cmd != 3 ==> after.files == st.files)
      && (turn.req.cmd != 5 ==> after.live == st.live)
  {
  }

  lemma TurnTransfers(p: Platform, wide: bool, st: TaState, out: Out, turn: Turn, name: string)
    requires OutFits(out) && StoreFits(st.files) && RequestFits(turn.req) && PlanFits(turn.plan, st.fds) && !p.Trusty?
    ensures var now := ContentOf(RouterSpec(p, wide, st, out, turn.req, turn.plan).0.files, name);
      var added := Transfer(p, turn, name);
      now == if added == [] then ContentOf(st.files, name) else Overlay(ContentOf(st.files, name), added[0])
  {
    StorageCommandExactly(p, wide, st, out, turn);
  }

  lemma FoldAppend(history: seq<Buffer>, added: seq<Buffer>)
    requires |added| <= 1
    ensures Fold(history + added) == if added == [] then Fold(history) else Overlay(Fold(history), added[0])
  {
    if added == [] {
      assert history + added == history;
    } else {
      assert (history + added)[..|history|] == history;
    }
  }

  /** After any run on QSEE or iSee, a file is the fold of what it held and of the transfers that reached it, in order. */
  lemma {:induction false} ContentIsFold(p: Platform, wide: bool, st: TaState, out: Out, turns: seq<Turn>, name: string)
    requires OutFits(out) && StoreFits(st.files) && RunFits(p, wide, st, out, turns) && !p.Trusty?
    requires forall k | 0 <= k < |turns| :: RequestFits(turns[k].req)
    ensures ContentOf(RunSpec(p, wide, st, out, turns).0.files, name)
            == Fold([ContentOf(st.files, name)] + Transfers(p, turns, name))
    decreases |turns|
  {
    var base := [ContentOf(st.files, name)];
    if turns == [] {
      assert Fold(base) == base[0] by {
        assert base[..0] == [];
      }
      assert base + Transfers(p, turns, name) == base;
    } else {
      var init, last := turns[..|turns| - 1], turns[|turns| - 1];
      RunSpecLast(p, wide, st, out, turns);
      ContentIsFold(p, wide, st, out, init, name);
      var before := RunSpec(p, wide, st, out, init);
      TurnTransfers(p, wide, before.0, before.1, last, name);
      ConcatAssociates(base, Transfers(p, init, name), Transfer(p, last, name));
      FoldAppend(base + Transfers(p, init, name), Transfer(p, last, name));
    }
  }

  /**
   * Intended iSee storage is QSEE storage: over any run whose writes are not empty, files and descriptors
   * evolve alike.  (QSEE refuses an empty write, iSee makes the file.)
   */
  lemma {:induction false} IntendedIseeStoresLikeQsee(wide: bool, st: TaState, out: Out, turns: seq<Turn>)
    requires OutFits(out) && StoreFits(st.files) && RunFits(Qsee, wide, st, out, turns)
    requires forall k | 0 <= k < |turns| :: turns[k].req.cmd == TEE_CMD_WRITE_TEST ==> 0 < turns[k].req.bufLen
    ensures RunFits(Isee(true), wide, st, out, turns)
    ensures RunSpec(Isee(true), wide, st, out, turns).0 == RunSpec(Qsee, wide, st, out, turns).0
    decreases |turns|
  {
    if turns != [] {
      var init, last := turns[..|turns| - 1], turns[|turns| - 1];
      RunSpecLast(Qsee, wide, st, out, turns);
      IntendedIseeStoresLikeQsee(wide, st, out, init);
      assert last.req.cmd == TEE_CMD_WRITE_TEST ==> 0 < |Payload(last.req)|;
    }
  }

  /** The length of a fold is the greatest length in its history. */
  lemma {:induction false} FoldLength(history: seq<Buffer>)
    ensures forall i | 0 <= i < |history| :: |history[i]| <= |Fold(history)|
    ensures Fold(history) != [] ==> exists i :: 0 <= i < |history| && |history[i]| == |Fold(history)|
  {
    if history != [] {
      var init, last := history[..|history| - 1], history[|history| - 1];
      FoldLength(init);
      assert |Fold(history)| == if |last| < |Fold(init)| then |Fold(init)| else |last|;
      assert forall i | 0 <= i < |init| :: history[i] == init[i];
      if |last| < |Fold(init)| {
        var i :| 0 <= i < |init| && |init[i]| == |Fold(init)|;
        assert |history[i]| == |Fold(history)|;
      } else {
        assert |history[|init|]| == |Fold(history)|;
      }
    }
  }

  /** Byte `k` of a fold is byte `k` of the latest entry long enough to have one. */
  lemma {:induction false} FoldByte(history: seq<Buffer>, j: nat, k: nat)
    requires j < |history| && k < |history[j]|
    requires forall i | j < i < |history| :: |history[i]| <= k
    ensures k < |Fold(history)| && Fold(history)[k] == history[j][k]
    decreases |history|
  {
    if j < |history| - 1 {
      var init := history[..|history| - 1];
      assert forall i | j < i < |init| :: init[i] == history[i];
      FoldByte(init, j, k);
    }
  }

  /** So a QSEE file's latest transfer is always its prefix, whatever came before. */
  lemma LatestTransferIsPrefix(history: seq<Buffer>)
    requires history != []
    ensures var last := history[|history| - 1];
      |last| <= |Fold(history)| && Fold(history)[..|last|] == last
  {
    QseeWriteReplacesExactly(Fold(history[..|history| - 1]), history[|history| - 1]);
  }

  // ------------------------------------------------------------------ capacity negotiation

  /** A read that ends before the code gets to the reply length. */
  predicate StopsEarly(p: Platform, plan: Plan) {
    match p
    case Qsee => plan.open < 0
    case Isee(_) => Refused(p, plan.open)
    case Trusty => plan.session < 0
  }

  /** Turns after which a file and the reply length learnt from it still agree. */
  predicate KeepsLength(p: Platform, turn: Turn, name: string) {
    if turn.req.cmd == TEE_CMD_WRITE_TEST then turn.req.name != name
    else if turn.req.cmd == TEE_CMD_READ_TEST then
      StopsEarly(p, turn.plan) || (turn.req.name == name && Reaches(p, turn.plan) && 0 <= turn.plan.size)
    else true
  }

  /** The file exists and the reply length is its size. */
  predicate LengthKnown(st: TaState, out: Out, name: string, content: Buffer) {
    name in st.files && st.files[name] == content && out.bufLen == |content|
  }

  lemma TurnKeepsLength(p: Platform, wide: bool, st: TaState, out: Out, turn: Turn, name: string, content: Buffer)
    requires OutFits(out) && StoreFits(st.files) && RequestFits(turn.req) && PlanFits(turn.plan, st.fds)
    requires KeepsLength(p, turn, name) && LengthKnown(st, out, name, content)
    ensures var r := RouterSpec(p, wide, st, out, turn.req, turn.plan);
      LengthKnown(r.0, r.1, name, content)
  {
    if turn.req.cmd == TEE_CMD_READ_TEST && !StopsEarly(p, turn.plan) {
      ReadIsFetch(p, wide, st, out, turn);
      FetchExactly(out.(ok := true), content, SizeRet(p, turn.plan, content), turn.plan.io, p == Qsee, wide);
    }
  }

  /**
   * The reply length stays that of the file over any run of non-storage commands, writes to other names,
   * reads that get no file open, and further reads of the same file that get as far as its size.
   */
  lemma {:induction false} LengthIsKept(p: Platform, wide: bool, st: TaState, out: Out, turns: seq<Turn>, name: string, content: Buffer)
    requires OutFits(out) && StoreFits(st.files) && RunFits(p, wide, st, out, turns)
    requires LengthKnown(st, out, name, content) && forall k | 0 <= k < |turns| :: KeepsLength(p, turns[k], name)
    ensures var r := RunSpec(p, wide, st, out, turns);
      LengthKnown(r.0, r.1, name, content)
    decreases |turns|
  {
    if turns != [] {
      var init, last := turns[..|turns| - 1], turns[|turns| - 1];
      RunSpecLast(p, wide, st, out, turns);
      LengthIsKept(p, wide, st, out, init, name, content);
      var before := RunSpec(p, wide, st, out, init);
      assert KeepsLength(p, last, name);
      TurnKeepsLength(p, wide, before.0, before.1, last, name, content);
    }
  }

  /**
   * Negotiation converges after one round on every platform: once a read has got as far as the size of
   * a non-empty file, and even if it was then refused for lack of capacity or failed in the transfer, a
   * second read the vendor performs succeeds, whatever length-keeping commands come between.
   */
  lemma SecondReadSucceeds(p: Platform, wide: bool, st: TaState, out: Out, first: Turn, turns: seq<Turn>, second: Turn)
    requires OutFits(out) && StoreFits(st.files)
    requires RequestFits(first.req) && PlanFits(first.plan, st.fds) && first.req.cmd == TEE_CMD_READ_TEST
    requires first.req.name in st.files && st.files[first.req.name] != [] && Reaches(p, first.plan) && 0 <= first.plan.size
    requires var f := RouterSpec(p, wide, st, out, first.req, first.plan);
      && StoreFits(f.0.files) && RunFits(p, wide, f.0, f.1, turns)
      && var now := RunSpec(p, wide, f.0, f.1, turns);
         RequestFits(second.req) && PlanFits(second.plan, now.0.fds)
    requires forall k | 0 <= k < |turns| :: KeepsLength(p, turns[k], first.req.name)
    requires second.req.cmd == TEE_CMD_READ_TEST && second.req.name == first.req.name
    requires SmoothRead(p, second.plan, |st.files[first.req.name]|)
    ensures var f := RouterSpec(p, wide, st, out, first.req, first.plan);
      var now := RunSpec(p, wide, f.0, f.1, turns);
      var r := RouterSpec(p, wide, now.0, now.1, second.req, second.plan).1;
      var content := st.files[first.req.name];
      r.ok && r.bufLen == |content| && (Delivered(r, content) <==> !wide || ZeroHead(content))
  {
    var content := st.files[first.req.name];
    var f := RouterSpec(p, wide, st, out, first.req, first.plan);
    ReadIsFetch(p, wide, st, out, first);
    FetchExactly(out.(ok := true), content, SizeRet(p, first.plan, content), first.plan.io, p == Qsee, wide);
    LengthIsKept(p, wide, f.0, f.1, turns, first.req.name, content);
    var now := RunSpec(p, wide, f.0, f.1, turns);
    SmoothReadDelivers(p, wide, now.0, now.1, second);
  }

  // ------------------------------------------------------------------ descriptors

  /** iSee as written mistook a positive descriptor for an error. */
  predicate Leaks(p: Platform, turn: Turn) {
    p == Isee(false) && UsesStorage(turn) && turn.plan.open > 0
  }

  function LeakedBy(p: Platform, turns: seq<Turn>): set<int> {
    set k | 0 <= k < |turns| && Leaks(p, turns[k]) :: turns[k].plan.open
  }

  lemma LeakedByLast(p: Platform, turns: seq<Turn>)
    requires turns != []
    ensures var init, last := turns[..|turns| - 1], turns[|turns| - 1];
      LeakedBy(p, turns) == LeakedBy(p, init) + if Leaks(p, last) then {last.plan.open} else {}
  {
    var init, last := turns[..|turns| - 1], turns[|turns| - 1];
    assert forall k | 0 <= k < |init| :: turns[k] == init[k];
    if Leaks(p, last) {
      assert turns[|init|] == last;
    }
  }

  lemma TurnLeaks(p: Platform, wide: bool, st: TaState, out: Out, turn: Turn)
    requires OutFits(out) && StoreFits(st.files) && RequestFits(turn.req) && PlanFits(turn.plan, st.fds)
    ensures RouterSpec(p, wide, st, out, turn.req, turn.plan).0.fds
            == st.fds + if Leaks(p, turn) then {turn.plan.open} else {}
  {
  }

  /** A run leaves open exactly the descriptors it leaked: none on QSEE, Trusty and iSee as intended. */
  lemma {:induction false} RunLeaksExactly(p: Platform, wide: bool, st: TaState, out: Out, turns: seq<Turn>)
    requires OutFits(out) && StoreFits(st.files) && RunFits(p, wide, st, out, turns)
    ensures RunSpec(p, wide, st, out, turns).0.fds == st.fds + LeakedBy(p, turns)
    ensures st.fds !! LeakedBy(p, turns)
    ensures RunSpec(p, wide, st, out, turns).0.fds == st.fds
            <==> forall k | 0 <= k < |turns| :: !Leaks(p, turns[k])
    decreases |turns|
  {
    if turns != [] {
      var init, last := turns[..|turns| - 1], turns[|turns| - 1];
      RunSpecLast(p, wide, st, out, turns);
      RunLeaksExactly(p, wide, st, out, init);
      LeakedByLast(p, turns);
      var before := RunSpec(p, wide, st, out, init);
      TurnLeaks(p, wide, before.0, before.1, last);
      assert forall k | 0 <= k < |turns| && Leaks(p, turns[k]) :: turns[k].plan.open in LeakedBy(p, turns);
    }
  }

  /** On iSee as written a storage command whose open succeeded with a positive descriptor always fails. */
  lemma IseeRefusesOpenFiles(wide: bool, st: TaState, out: Out, turn: Turn)
    requires OutFits(out) && StoreFits(st.files) && RequestFits(turn.req) && PlanFits(turn.plan, st.fds)
    requires Leaks(Isee(false), turn)
    ensures !RouterSpec(Isee(false), wide, st, out, turn.req, turn.plan).1.ok
  {
  }
}
