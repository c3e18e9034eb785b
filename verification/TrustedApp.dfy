/**
 * The trusted application's router with its storage and SPI code on three platforms.
 *
 * The specification functions say what one command does to the store and to the reply; the class runs
 * the code's own steps against the vendor services and is proved to do exactly that, with every handle
 * it opens closed again (or, on iSee, with exactly the descriptors it leaks).
 */
module TrustedApp {
  import opened Common
  import opened Vendor
  import opened Words

  /** On iSee, `intended` tells storage with the open test that was meant from storage as it is written. */
  datatype Platform = Qsee | Isee(intended: bool) | Trusty

  /** tee_out_buf without the texts: `ok` is `status == GENERIC_OK`. */
  datatype Out = Out(ok: bool, sysErr: int, bufLen: nat, buf: Buffer)

  /** tee_in_buf, with `str` read as the C string it holds. */
  datatype Request = Request(cmd: nat, name: string, bufLen: nat, buf: Buffer)

  /** Every vendor outcome one command can meet. Negative codes, or nonzero ones for the buses, are failures. */
  datatype Plan = Plan(session: int, open: int, size: int, io: int, commit: bool,
                       spiOpen: int, spiXfer: int, rx: Buffer)

  /** What outlives a command: the store, whether the device structure is allocated, open descriptors. */
  datatype TaState = TaState(files: Files, live: bool, fds: set<int>)

  predicate OutFits(out: Out) {
    |out.buf| == BUF_LEN && out.bufLen < WORD
  }

  predicate RequestFits(req: Request) {
    |req.buf| == BUF_LEN && req.bufLen <= BUF_LEN
  }

  /** Every stored file fits a reply payload. */
  predicate StoreFits(files: Files) {
    forall name | name in files :: |files[name]| <= BUF_LEN
  }

  /** What the vendor guarantees: a new descriptor is not one already open, and SPI moves two bytes. */
  predicate PlanFits(plan: Plan, fds: set<int>) {
    plan.open !in fds && |plan.rx| == 2
  }

  // ------------------------------------------------------------------ the reply length word

  /**
   * The code passes the address of the 32-bit `buf_len` as a `size_t *`.  Where size_t has 64 bits
   * (`wide`), the upper half of every access falls on the first four payload bytes behind it.
   */
  function LoadLen(bufLen: nat, buf: Buffer, wide: bool): (n: nat)
    requires 4 <= |buf|
    ensures bufLen <= n && (!wide ==> n == bufLen)
  {
    if wide then bufLen + WORD * Value(buf[..4]) else bufLen
  }

  /** Storing a size below 2^32 through that pointer. */
  function StoreLen(out: Out, wide: bool, size: nat): (r: Out)
    requires OutFits(out) && size < WORD
    ensures OutFits(r) && LoadLen(r.bufLen, r.buf, wide) == size && r.ok == out.ok && r.sysErr == out.sysErr
    ensures r.buf[4..] == out.buf[4..]
  {
    FourZeros();
    out.(bufLen := size, buf := if wide then [0, 0, 0, 0] + out.buf[4..] else out.buf)
  }

  /** A transfer into the payload: `data` arrives, the bytes behind it stay. */
  function Moved(buf: Buffer, data: Buffer): (r: Buffer)
    requires |data| <= |buf|
    ensures |r| == |buf| && r[..|data|] == data && r[|data|..] == buf[|data|..]
    ensures data == [] ==> r == buf
  {
    data + buf[|data|..]
  }

  // ------------------------------------------------------------------ specification

  /** LOG_RECORD: status only ever goes from OK to ERR within a command. */
  function Err(out: Out): Out {
    out.(ok := false)
  }

  function Check(out: Out, good: bool): Out {
    out.(ok := out.ok && good)
  }

  /**
   * A read once the file is open.  `sizeRet` is what the size query left in sys_err; `strict` says
   * whether a short transfer is an error.
   */
  function Fetch(out: Out, content: Buffer, sizeRet: int, io: int, strict: bool, wide: bool): (r: Out)
    requires OutFits(out) && |content| <= BUF_LEN
    ensures OutFits(r)
  {
    var sized := out.(sysErr := sizeRet);
    var n := Granted(io, |content|);
    if sizeRet < 0 then StoreLen(Err(sized), wide, 0)
    else if content == [] || LoadLen(out.bufLen, out.buf, wide) < |content| then StoreLen(Err(sized), wide, |content|)
    else
      var moved := Moved(out.buf, if n < 0 then [] else content[..n]);
      StoreLen(Check(out.(sysErr := n, buf := moved), if strict then n == |content| else 0 <= n), wide, |content|)
  }

  /** The open test of descriptor storage: iSee as written compares with 0 what it then uses as a descriptor. */
  predicate Refused(p: Platform, fd: int) {
    if p == Isee(false) then fd != 0 else fd < 0
  }

  function WriteSpec(p: Platform, files: Files, out: Out, name: string, data: Buffer, plan: Plan): (Files, Out) {
    var n := Granted(plan.io, |data|);
    var done := Check(out.(sysErr := n), 0 <= n);
    var touched := Touch(files, name);
    var overlaid := if n < 0 then touched else touched[name := Overlay(touched[name], data[..n])];
    match p
    case Qsee =>
      if data == [] then (files, Err(out))
      else if plan.open < 0 then (files, Err(out.(sysErr := plan.open)))
      else (overlaid, done)
    case Isee(_) =>
      if plan.open < 0 then (files, Err(out.(sysErr := plan.open)))
      else if Refused(p, plan.open) then (touched, Err(out.(sysErr := plan.open)))
      else (overlaid, done)
    case Trusty =>
      if plan.session < 0 then (files, Err(out.(sysErr := plan.session)))
      else if plan.open < 0 then (files, Err(out.(sysErr := plan.open)))
      else (if plan.commit then files[name := if n < 0 then [] else data[..n]] else files, done)
  }

  function ReadSpec(p: Platform, wide: bool, files: Files, out: Out, name: string, plan: Plan): (r: (Files, Out))
    requires OutFits(out) && StoreFits(files)
    ensures OutFits(r.1)
  {
    var touched := Touch(files, name);
    match p
    case Qsee =>
      if plan.open < 0 then (files, Err(out.(sysErr := plan.open)))
      else (touched, Fetch(out, touched[name], plan.size, plan.io, true, wide))
    case Isee(_) =>
      if plan.open < 0 then (files, Err(out.(sysErr := plan.open)))
      else if Refused(p, plan.open) then (touched, Err(out.(sysErr := plan.open)))
      else
        var sizeRet := if plan.size < 0 then plan.size else |touched[name]|;
        (touched, Fetch(out, touched[name], sizeRet, plan.io, false, wide))
    case Trusty =>
      if plan.session < 0 then (files, Err(out.(sysErr := plan.session)))
      else if plan.open < 0 then (files, StoreLen(Err(out.(sysErr := plan.open)), wide, 0))
      else (if plan.commit then touched else files, Fetch(out, touched[name], plan.size, plan.io, false, wide))
  }

  /** The descriptors a storage command leaves open: those that were opened and then refused. */
  function Leaked(p: Platform, plan: Plan): set<int> {
    if !p.Trusty? && 0 <= plan.open && Refused(p, plan.open) then {plan.open} else {}
  }

  function SpiSpec(p: Platform, out: Out, plan: Plan): (r: Out)
    requires OutFits(out) && |plan.rx| == 2
    ensures OutFits(r)
  {
    if p == Qsee && plan.spiOpen != 0 then Err(out.(sysErr := plan.spiOpen))
    else
      Check(out.(sysErr := plan.spiXfer, buf := if plan.spiXfer == 0 then Moved(out.buf, plan.rx) else out.buf),
            plan.spiXfer == 0)
  }

  /** ta_router: one command, dispatched through the command table. */
  function RouterSpec(p: Platform, wide: bool, st: TaState, out: Out, req: Request, plan: Plan): (r: (TaState, Out))
    requires OutFits(out) && RequestFits(req) && StoreFits(st.files) && PlanFits(plan, st.fds)
    ensures OutFits(r.1)
  {
    var cleared := out.(ok := true);
    if req.cmd == TEE_CMD_SPI_TEST || req.cmd == TEE_CMD_READ_ID then (st, SpiSpec(p, cleared, plan))
    else if req.cmd == TEE_CMD_I2C_TEST then (st, cleared)
    else if req.cmd == TEE_CMD_WRITE_TEST then
      var w := WriteSpec(p, st.files, cleared, req.name, req.buf[..req.bufLen], plan);
      (st.(files := w.0, fds := st.fds + Leaked(p, plan)), w.1)
    else if req.cmd == TEE_CMD_READ_TEST then
      var r := ReadSpec(p, wide, st.files, cleared, req.name, plan);
      (st.(files := r.0, fds := st.fds + Leaked(p, plan)), r.1)
    else if req.cmd == TEE_CMD_RELEASE then (st.(live := false), cleared)
    else (st, Err(cleared))
  }

  /** Every file still fits a reply after any command, whatever the vendor did. */
  lemma RouterKeepsStoreFits(p: Platform, wide: bool, st: TaState, out: Out, req: Request, plan: Plan)
    requires OutFits(out) && RequestFits(req) && StoreFits(st.files) && PlanFits(plan, st.fds)
    ensures StoreFits(RouterSpec(p, wide, st, out, req, plan).0.files)
  {
  }

  /** A command with the outcomes the vendor has in store for it. */
  datatype Turn = Turn(req: Request, plan: Plan)

  /** Requests are in bounds, and the vendor keeps its word about descriptors throughout the run. */
  ghost predicate RunFits(p: Platform, wide: bool, st: TaState, out: Out, turns: seq<Turn>)
    requires OutFits(out) && StoreFits(st.files)
    decreases |turns|, 0
  {
    turns == [] ||
    (var init, last := turns[..|turns| - 1], turns[|turns| - 1];
     RunFits(p, wide, st, out, init) && RequestFits(last.req) &&
     PlanFits(last.plan, RunSpec(p, wide, st, out, init).0.fds))
  }

  /** State and reply after any number of commands; the reply buffer is carried from one to the next. */
  ghost function RunSpec(p: Platform, wide: bool, st: TaState, out: Out, turns: seq<Turn>): (r: (TaState, Out))
    requires OutFits(out) && StoreFits(st.files) && RunFits(p, wide, st, out, turns)
    ensures OutFits(r.1) && StoreFits(r.0.files)
    decreases |turns|, 1
  {
    if turns == [] then (st, out)
    else
      var before := RunSpec(p, wide, st, out, turns[..|turns| - 1]);
      var last := turns[|turns| - 1];
      RouterKeepsStoreFits(p, wide, before.0, before.1, last.req, last.plan);
      RouterSpec(p, wide, before.0, before.1, last.req, last.plan)
  }

  lemma RunFitsPrefix(p: Platform, wide: bool, st: TaState, out: Out, turns: seq<Turn>, k: nat)
    requires OutFits(out) && StoreFits(st.files) && RunFits(p, wide, st, out, turns) && k <= |turns|
    ensures RunFits(p, wide, st, out, turns[..k])
    decreases |turns|
  {
    if k < |turns| {
      assert turns[..|turns| - 1][..k] == turns[..k];
      RunFitsPrefix(p, wide, st, out, turns[..|turns| - 1], k);
    } else {
      assert turns[..k] == turns;
    }
  }

  /** The device structure is allocated exactly until a RELEASE has been served. */
  lemma {:induction false} LiveExactly(p: Platform, wide: bool, st: TaState, out: Out, turns: seq<Turn>)
    requires OutFits(out) && StoreFits(st.files) && RunFits(p, wide, st, out, turns)
    ensures RunSpec(p, wide, st, out, turns).0.live
            <==> st.live && forall k | 0 <= k < |turns| :: turns[k].req.cmd != TEE_CMD_RELEASE
    decreases |turns|
  {
    if turns != [] {
      var init, last := turns[..|turns| - 1], turns[|turns| - 1];
      LiveExactly(p, wide, st, out, init);
      assert init + [last] == turns;
    }
  }

  /** What callers have to keep to: the structure is there to begin with, and no command follows a RELEASE. */
  predicate ReleasedLast(st: TaState, turns: seq<Turn>) {
    turns == [] || (st.live && forall k | 0 <= k < |turns| - 1 :: turns[k].req.cmd != TEE_CMD_RELEASE)
  }

  // ------------------------------------------------------------------ the code

  class Ta {
    const platform: Platform
    const wide: bool
    const vendor: Services
    var out: Out
    var live: bool

    ghost predicate Valid() reads this, vendor {
      && OutFits(out) && StoreFits(vendor.files)
      && !vendor.spiOpen && !vendor.i2cOpen
    }

    constructor (platform: Platform, wide: bool, out: Out)
      requires OutFits(out)
      ensures Valid() && live && fresh(vendor) && vendor.AllClosed() && vendor.files == map[]
      ensures this.platform == platform && this.wide == wide && this.out == out
    {
      this.platform, this.wide, this.out, live := platform, wide, out, true;
      vendor := new Services();
    }

    method LogRecord()
      modifies this`out
      ensures out == Err(old(out))
    {
      out := out.(ok := false);
    }

    method QseeWrite(name: string, data: Buffer, plan: Plan)
      requires Valid() && plan.open !in vendor.fds
      modifies this`out, vendor`files, vendor`fds
      ensures (vendor.files, out) == WriteSpec(Qsee, old(vendor.files), old(out), name, data, plan)
      ensures vendor.fds == old(vendor.fds)
    {
      if |data| == 0 {
        LogRecord();
        return;
      }
      var fd := vendor.FdOpen(name, plan.open);
      out := out.(sysErr := fd);
      if fd < 0 {
        LogRecord();
        return;
      }
      var n := vendor.FdWrite(fd, data, plan.io);
      out := out.(sysErr := n);
      if n < 0 {
        LogRecord();
      }
      vendor.FdClose(fd);
    }

    method QseeRead(name: string, plan: Plan)
      requires Valid() && plan.open !in vendor.fds
      modifies this`out, vendor`files, vendor`fds
      ensures (vendor.files, out) == ReadSpec(Qsee, wide, old(vendor.files), old(out), name, plan)
      ensures vendor.fds == old(vendor.fds)
    {
      var fd := vendor.FdOpen(name, plan.open);
      out := out.(sysErr := fd);
      if fd < 0 {
        LogRecord();
        return;
      }
      var r, size := vendor.FdSize(fd, plan.size);
      out := out.(sysErr := r);
      if r < 0 || size == 0 || LoadLen(out.bufLen, out.buf, wide) < size {
        LogRecord();
      } else {
        var n, data := vendor.FdRead(fd, size, plan.io);
        out := out.(sysErr := n, buf := Moved(out.buf, data));
        if n != size {
          LogRecord();
        }
      }
      vendor.FdClose(fd);
      out := StoreLen(out, wide, size);
    }

    /** As written, the open test is `!= 0`: a usable descriptor is refused, and kept open, unless it is 0. */
    method IseeWrite(name: string, data: Buffer, plan: Plan)
      requires Valid() && platform.Isee? && plan.open !in vendor.fds
      modifies this`out, vendor`files, vendor`fds
      ensures (vendor.files, out) == WriteSpec(platform, old(vendor.files), old(out), name, data, plan)
      ensures vendor.fds == if Leaked(platform, plan) != {} then old(vendor.fds)[plan.open := name] else old(vendor.fds)
    {
      var fd := vendor.FdOpen(name, plan.open);
      out := out.(sysErr := fd);
      if Refused(platform, fd) {
        LogRecord();
        return;
      }
      var n := vendor.FdWrite(fd, data, plan.io);
      out := out.(sysErr := n);
      if n < 0 {
        LogRecord();
      }
      vendor.FdClose(fd);
    }

    method IseeRead(name: string, plan: Plan)
      requires Valid() && platform.Isee? && plan.open !in vendor.fds
      modifies this`out, vendor`files, vendor`fds
      ensures (vendor.files, out) == ReadSpec(platform, wide, old(vendor.files), old(out), name, plan)
      ensures vendor.fds == if Leaked(platform, plan) != {} then old(vendor.fds)[plan.open := name] else old(vendor.fds)
    {
      var fd := vendor.FdOpen(name, plan.open);
      out := out.(sysErr := fd);
      if Refused(platform, fd) {
        LogRecord();
        return;
      }
      var r, size := vendor.FdSize(fd, plan.size);
      out := out.(sysErr := if r < 0 then r else size);
      if r < 0 || size == 0 || LoadLen(out.bufLen, out.buf, wide) < size {
        LogRecord();
      } else {
        var n, data := vendor.FdRead(fd, size, plan.io);
        out := out.(sysErr := n, buf := Moved(out.buf, data));
        if n < 0 {
          LogRecord();
        }
      }
      vendor.FdClose(fd);
      out := StoreLen(out, wide, size);
    }

    /** Truncate, write, commit: the result of the commit is not looked at. */
    method TrustyWrite(name: string, data: Buffer, plan: Plan)
      requires Valid()
      modifies this`out, vendor`files, vendor`sessions
      ensures (vendor.files, out) == WriteSpec(Trusty, old(vendor.files), old(out), name, data, plan)
      ensures vendor.sessions == old(vendor.sessions)
    {
      var r, session := vendor.OpenSession(plan.session);
      out := out.(sysErr := r);
      if r < 0 {
        LogRecord();
        return;
      }
      var file;
      r, file := vendor.OpenFile(session, name, true, plan.open);
      out := out.(sysErr := r);
      if r < 0 {
        LogRecord();
      } else {
        r := vendor.StorageWrite(file, data, plan.io);
        out := out.(sysErr := r);
        if r < 0 {
          LogRecord();
        }
        vendor.CloseFile(file);
        CommitOne(vendor.files, session.staged, name, if r < 0 then [] else data[..r]);
        vendor.EndTransaction(session, plan.commit);
      }
      vendor.CloseSession(session);
    }

    /** The part of trusty_read during which its file is open. */
    method TrustyFetch(file: File, plan: Plan) returns (size: nat)
      requires OutFits(out) && file.Usable() && |file.Content()| <= BUF_LEN
      modifies this`out
      ensures size <= BUF_LEN && OutFits(out)
      ensures StoreLen(out, wide, size) == Fetch(old(out), file.Content(), plan.size, plan.io, false, wide)
    {
      var r;
      r, size := vendor.GetFileSize(file, plan.size);
      out := out.(sysErr := r);
      if r < 0 || size == 0 || LoadLen(out.bufLen, out.buf, wide) < size {
        LogRecord();
      } else {
        var data;
        r, data := vendor.StorageRead(file, size, plan.io);
        out := out.(sysErr := r, buf := Moved(out.buf, data));
        if r < 0 {
          LogRecord();
        }
      }
    }

    method TrustyRead(name: string, plan: Plan)
      requires Valid()
      modifies this`out, vendor`files, vendor`sessions
      ensures (vendor.files, out) == ReadSpec(Trusty, wide, old(vendor.files), old(out), name, plan)
      ensures vendor.sessions == old(vendor.sessions)
    {
      var r, session := vendor.OpenSession(plan.session);
      out := out.(sysErr := r);
      if r < 0 {
        LogRecord();
        return;
      }
      var file;
      var size: nat := 0;
      r, file := vendor.OpenFile(session, name, false, plan.open);
      out := out.(sysErr := r);
      if r < 0 {
        LogRecord();
      } else {
        ghost var content := Touch(vendor.files, name)[name];
        assert file.Content() == content by {
          assert vendor.files + map[] == vendor.files;
        }
        size := TrustyFetch(file, plan);
        vendor.CloseFile(file);
        assert vendor.files + session.staged == Touch(vendor.files, name) by {
          CommitOne(vendor.files, session.staged, name, content);
        }
        vendor.EndTransaction(session, plan.commit);
      }
      vendor.CloseSession(session);
      out := StoreLen(out, wide, size);
    }

    /** Two bytes over SPI: on QSEE inside an open/close bracket, elsewhere as a single call. */
    method SpiRw(plan: Plan)
      requires Valid() && |plan.rx| == 2
      modifies this`out, vendor`spiOpen
      ensures out == SpiSpec(platform, old(out), plan) && !vendor.spiOpen
    {
      if platform == Qsee {
        var r := vendor.SpiOpen(plan.spiOpen);
        out := out.(sysErr := r);
        if r != 0 {
          LogRecord();
          return;
        }
      }
      out := out.(sysErr := plan.spiXfer);
      if plan.spiXfer != 0 {
        LogRecord();
      } else {
        out := out.(buf := Moved(out.buf, plan.rx));
      }
      if platform == Qsee {
        vendor.SpiClose();
      }
    }

    /**
     * qsee_i2c_rw.  The bus is closed once it was opened, a good transfer puts `rx` into the payload, and
     * any failure shows in the status; but the close overwrites sys_err, so a failed read followed by a
     * good close reports error code 0.
     */
    method I2cRw(openRet: int, readRet: int, rx: Buffer, closeRet: int)
      requires Valid() && |rx| <= out.bufLen && |rx| <= BUF_LEN
      modifies this`out, vendor`i2cOpen
      ensures !vendor.i2cOpen
      ensures out.ok <==> old(out).ok && openRet == 0 && readRet == 0 && closeRet == 0
      ensures out == old(out).(
        ok := out.ok, sysErr := if openRet != 0 then openRet else closeRet,
        buf := if openRet == 0 && readRet == 0 then Moved(old(out).buf, rx) else old(out).buf)
    {
      var r := vendor.I2cOpen(openRet);
      out := out.(sysErr := r);
      if r != 0 {
        LogRecord();
        return;
      }
      out := out.(sysErr := readRet);
      if readRet != 0 {
        LogRecord();
      } else {
        out := out.(buf := Moved(out.buf, rx));
      }
      r := vendor.I2cClose(closeRet);
      out := out.(sysErr := r);
      if r != 0 {
        LogRecord();
      }
    }

    ghost function State(): TaState reads this, vendor {
      TaState(vendor.files, live, vendor.fds.Keys)
    }

    method SfsWrite(name: string, data: Buffer, plan: Plan)
      requires Valid() && plan.open !in vendor.fds
      modifies this`out, vendor`files, vendor`fds, vendor`sessions
      ensures (vendor.files, out) == WriteSpec(platform, old(vendor.files), old(out), name, data, plan)
      ensures vendor.fds.Keys == old(vendor.fds.Keys) + Leaked(platform, plan)
      ensures vendor.sessions == old(vendor.sessions)
    {
      match platform
      case Qsee => QseeWrite(name, data, plan);
      case Isee(_) => IseeWrite(name, data, plan);
      case Trusty => TrustyWrite(name, data, plan);
    }

    method SfsRead(name: string, plan: Plan)
      requires Valid() && plan.open !in vendor.fds
      modifies this`out, vendor`files, vendor`fds, vendor`sessions
      ensures (vendor.files, out) == ReadSpec(platform, wide, old(vendor.files), old(out), name, plan)
      ensures vendor.fds.Keys == old(vendor.fds.Keys) + Leaked(platform, plan)
      ensures vendor.sessions == old(vendor.sessions)
    {
      match platform
      case Qsee => QseeRead(name, plan);
      case Isee(_) => IseeRead(name, plan);
      case Trusty => TrustyRead(name, plan);
    }

    /** ta_router: status is reset, the rest of the reply buffer is not, and the command table decides. */
    method TaRouter(req: Request, plan: Plan)
      requires Valid() && live && RequestFits(req) && PlanFits(plan, vendor.fds.Keys)
      modifies this`out, this`live, vendor`files, vendor`fds, vendor`sessions, vendor`spiOpen
      ensures Valid() && vendor.sessions == old(vendor.sessions)
      ensures (State(), out) == RouterSpec(platform, wide, old(State()), old(out), req, plan)
    {
      RouterKeepsStoreFits(platform, wide, State(), out, req, plan);
      out := out.(ok := true);
      if req.cmd < TEE_CMD_END {
        match req.cmd
        case 0 => SpiRw(plan);
        case 1 =>
        case 2 => SfsWrite(req.name, req.buf[..req.bufLen], plan);
        case 3 => SfsRead(req.name, plan);
        case 4 => SpiRw(plan);
        case _ => live := false;
      } else {
        LogRecord();
      }
    }

    /**
     * Conservation over whole runs: for every command sequence and every pattern of vendor failures, no
     * session stays open, the buses are closed, and the open descriptors are those the run leaks.  The
     * device structure is live at every router call, because RELEASE comes last if it comes at all.
     */
    method ServeAll(turns: seq<Turn>)
      requires Valid() && RunFits(platform, wide, State(), out, turns) && ReleasedLast(State(), turns)
      modifies this`out, this`live, vendor`files, vendor`fds, vendor`sessions, vendor`spiOpen
      ensures Valid() && vendor.sessions == old(vendor.sessions)
      ensures (State(), out) == RunSpec(platform, wide, old(State()), old(out), turns)
    {
      var i := 0;
      ghost var st, first := State(), out;
      while i < |turns|
        invariant 0 <= i <= |turns| && Valid() && vendor.sessions == old(vendor.sessions)
        invariant RunFits(platform, wide, st, first, turns[..i])
        invariant (State(), out) == RunSpec(platform, wide, st, first, turns[..i])
      {
        LiveExactly(platform, wide, st, first, turns[..i]);
        RunFitsPrefix(platform, wide, st, first, turns, i + 1);
        assert turns[..i + 1][..i] == turns[..i];
        TaRouter(turns[i].req, turns[i].plan);
        i := i + 1;
      }
      assert turns[..i] == turns;
    }
  }
}
