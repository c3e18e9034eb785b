/**
 * The vendor services behind the storage and SPI code of the trusted application, as typestate: every
 * handle must be open when it is used or closed, and a storage session must outlive its files.
 * Each call's outcome is an argument, so that callers are verified for every pattern of failures.
 */
module Vendor {
  import opened Common

  type Files = map<string, Buffer>

  /** `data` written at offset 0 without truncation. */
  function Overlay(base: Buffer, data: Buffer): (r: Buffer)
    ensures |r| == if |data| < |base| then |base| else |data|
    ensures base == [] ==> r == data
    ensures forall k | 0 <= k < |r| :: r[k] == if k < |data| then data[k] else base[k]
  {
    data + (if |data| < |base| then base[|data|..] else [])
  }

  /** Opening with the create flag. */
  function Touch(files: Files, name: string): (r: Files)
    ensures name in r && (forall other | other in files :: other in r && r[other] == files[other])
    ensures forall other | other in r && other != name :: other in files
    ensures name !in files ==> r[name] == []
  {
    if name in files then files else files[name := []]
  }

  /** Committing a session that staged a single file. */
  lemma CommitOne(files: Files, staged: Files, name: string, content: Buffer)
    requires staged == map[name := content]
    ensures files + staged == files[name := content]
    ensures name in files && files[name] == content ==> files[name := content] == files
  {
  }

  /** A transfer of at most `len` bytes: the vendor moves `io` of them, or fails with a negative code. */
  function Granted(io: int, len: nat): (n: int)
    ensures n <= len && (n < 0 <==> io < 0) && (n == io || n == len) && n <= io
  {
    if io < len then io else len
  }

  /** A storage session: what it has staged, and its files that are open. */
  class Session {
    var staged: Files
    var openFiles: set<File>

    constructor ()
      ensures staged == map[] && openFiles == {}
    {
      staged, openFiles := map[], {};
    }
  }

  /** A file of a session, open as long as the session lists it. */
  class File {
    const session: Session
    const name: string

    constructor (session: Session, name: string)
      ensures this.session == session && this.name == name
    {
      this.session, this.name := session, name;
    }

    predicate Usable() reads session {
      this in session.openFiles && name in session.staged
    }

    function Content(): Buffer
      requires Usable()
      reads session
    {
      session.staged[name]
    }
  }

  class Services {
    var files: Files

    /** Descriptor-based storage: open descriptors and the files behind them. */
    var fds: map<int, string>

    /** Transactional storage: the open sessions. */
    var sessions: set<Session>

    var spiOpen: bool
    var i2cOpen: bool

    /** No handle of any kind is open. */
    ghost predicate AllClosed() reads this {
      fds == map[] && sessions == {} && !spiOpen && !i2cOpen
    }

    constructor ()
      ensures AllClosed() && files == map[]
    {
      files, fds, sessions := map[], map[], {};
      spiOpen, i2cOpen := false, false;
    }

    // ---------------------------------------------------------------- descriptors

    method FdOpen(name: string, ret: int) returns (r: int)
      requires 0 <= ret ==> ret !in fds
      modifies this`files, this`fds
      ensures r == ret
      ensures ret < 0 ==> files == old(files) && fds == old(fds)
      ensures 0 <= ret ==> files == Touch(old(files), name) && fds == old(fds)[ret := name]
      ensures 0 <= ret ==> fds - {ret} == old(fds)
    {
      r := ret;
      if 0 <= ret {
        files, fds := Touch(files, name), fds[ret := name];
        assert fds - {ret} == old(fds);
      }
    }

    /** The size of an open file; a failing call leaves the caller's size alone. */
    method FdSize(fd: int, ret: int) returns (r: int, size: nat)
      requires fd in fds && fds[fd] in files
      ensures r == ret && size == if ret < 0 then 0 else |files[fds[fd]]|
    {
      r, size := ret, if ret < 0 then 0 else |files[fds[fd]]|;
    }

    method FdWrite(fd: int, data: Buffer, io: int) returns (r: int)
      requires fd in fds && fds[fd] in files
      modifies this`files
      ensures r == Granted(io, |data|)
      ensures files == if r < 0 then old(files) else old(files)[fds[fd] := Overlay(old(files)[fds[fd]], data[..r])]
    {
      r := Granted(io, |data|);
      if 0 <= r {
        files := files[fds[fd] := Overlay(files[fds[fd]], data[..r])];
      }
    }

    method FdRead(fd: int, len: nat, io: int) returns (r: int, data: Buffer)
      requires fd in fds && fds[fd] in files && len <= |files[fds[fd]]|
      ensures r == Granted(io, len) && data == if r < 0 then [] else files[fds[fd]][..r]
    {
      r := Granted(io, len);
      data := if r < 0 then [] else files[fds[fd]][..r];
    }

    method FdClose(fd: int)
      requires fd in fds
      modifies this`fds
      ensures fds == old(fds) - {fd}
    {
      fds := fds - {fd};
    }

    // ---------------------------------------------------------------- sessions

    method OpenSession(ret: int) returns (r: int, session: Session?)
      modifies this`sessions
      ensures r == ret
      ensures ret < 0 ==> sessions == old(sessions)
      ensures 0 <= ret ==>
        && session != null && fresh(session) && sessions == old(sessions) + {session}
        && session.staged == map[] && session.openFiles == {}
    {
      r, session := ret, null;
      if 0 <= ret {
        session := new Session();
        sessions := sessions + {session};
      }
    }

    method OpenFile(session: Session, name: string, truncate: bool, ret: int) returns (r: int, file: File?)
      requires session in sessions
      modifies session
      ensures r == ret
      ensures ret < 0 ==> session.staged == old(session.staged) && session.openFiles == old(session.openFiles)
      ensures 0 <= ret ==>
        && file != null && fresh(file) && file.session == session && file.name == name && file.Usable()
        && session.openFiles == old(session.openFiles) + {file}
        && session.staged == old(session.staged)[name := file.Content()]
        && file.Content() == (if truncate then [] else Touch(files + old(session.staged), name)[name])
    {
      r, file := ret, null;
      if 0 <= ret {
        file := new File(session, name);
        var content := if truncate then [] else Touch(files + session.staged, name)[name];
        session.openFiles := session.openFiles + {file};
        session.staged := session.staged[name := content];
      }
    }

    method GetFileSize(file: File, ret: int) returns (r: int, size: nat)
      requires file.Usable()
      ensures r == ret && size == if ret < 0 then 0 else |file.Content()|
    {
      r, size := ret, if ret < 0 then 0 else |file.Content()|;
    }

    method StorageWrite(file: File, data: Buffer, io: int) returns (r: int)
      requires file.Usable()
      modifies file.session`staged
      ensures file.Usable() && r == Granted(io, |data|)
      ensures file.Content() == if r < 0 then old(file.Content()) else Overlay(old(file.Content()), data[..r])
      ensures file.session.staged == old(file.session.staged)[file.name := file.Content()]
    {
      r := Granted(io, |data|);
      var content := if r < 0 then file.Content() else Overlay(file.Content(), data[..r]);
      file.session.staged := file.session.staged[file.name := content];
    }

    method StorageRead(file: File, len: nat, io: int) returns (r: int, data: Buffer)
      requires file.Usable() && len <= |file.Content()|
      ensures r == Granted(io, len) && data == if r < 0 then [] else file.Content()[..r]
    {
      r := Granted(io, len);
      data := if r < 0 then [] else file.Content()[..r];
    }

    method CloseFile(file: File)
      requires file in file.session.openFiles
      modifies file.session`openFiles
      ensures file.session.openFiles == old(file.session.openFiles) - {file}
    {
      file.session.openFiles := file.session.openFiles - {file};
    }

    /** Commit what the session staged; if the commit fails nothing of it is kept. */
    method EndTransaction(session: Session, commit: bool)
      requires session in sessions
      modifies this`files, session`staged
      ensures files == (if commit then old(files + session.staged) else old(files))
      ensures session.staged == map[]
    {
      if commit {
        files := files + session.staged;
      }
      session.staged := map[];
    }

    /** A session may be closed only when none of its files is open. */
    method CloseSession(session: Session)
      requires session in sessions && session.openFiles == {}
      modifies this`sessions
      ensures sessions == old(sessions) - {session}
    {
      sessions := sessions - {session};
    }

    // ---------------------------------------------------------------- buses

    method SpiOpen(ret: int) returns (r: int)
      requires !spiOpen
      modifies this`spiOpen
      ensures r == ret && (spiOpen <==> ret == 0)
    {
      r, spiOpen := ret, ret == 0;
    }

    method SpiClose()
      requires spiOpen
      modifies this`spiOpen
      ensures !spiOpen
    {
      spiOpen := false;
    }

    method I2cOpen(ret: int) returns (r: int)
      requires !i2cOpen
      modifies this`i2cOpen
      ensures r == ret && (i2cOpen <==> ret == 0)
    {
      r, i2cOpen := ret, ret == 0;
    }

    method I2cClose(ret: int) returns (r: int)
      requires i2cOpen
      modifies this`i2cOpen
      ensures r == ret && !i2cOpen
    {
      r, i2cOpen := ret, false;
    }
  }
}
