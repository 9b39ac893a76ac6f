/** The descriptor calls of the HAL over the array alt_fd_list. */
module FdTable {
  import opened Words
  import opened FdFlags
  import S = FdSpec
  import P = FdProof

  // struct alt_fd_s.
  datatype Slot = Slot(dev: S.Dev, priv: int, flags: bv32)

  // An entry of alt_dev_list: the registered name and the device.
  datatype Registered = Registered(name: string, id: nat)

  class Table {
    const fds: array<Slot>
    var maxFd: int
    var devices: seq<Registered> // alt_dev_list, first entry first

    static function Show(slot: Slot): S.Fd {
      S.Fd(slot.dev, slot.priv, Decode(slot.flags))
    }

    ghost function Pool(): (p: S.Pool)
      reads this`maxFd, fds
    {
      S.Pool(Shown(fds[..]), maxFd)
    }

    static function Shown(slots: seq<Slot>): seq<S.Fd> {
      seq(|slots|, i requires 0 <= i < |slots| => Show(slots[i]))
    }

    ghost predicate Valid()
      reads this`maxFd, fds
    {
      P.Inv(Pool())
    }

    static lemma ShownUpdate(slots: seq<Slot>, k: nat, slot: Slot)
      requires k < |slots|
      ensures Shown(slots[k := slot]) == Shown(slots)[k := Show(slot)]
    {
    }

    // Slot k assigned, as the pool shows it.
    method Assign(k: nat, slot: Slot)
      requires k < fds.Length
      modifies fds
      ensures Pool() == old(Pool()).(fds := old(Pool()).fds[k := Show(slot)])
    {
      ShownUpdate(fds[..], k, slot);
      fds[k] := slot;
      assert fds[..] == old(fds[..])[k := slot];
    }

    constructor (devices: seq<Registered>)
      ensures Valid() && Pool() == S.Boot() && this.devices == devices
    {
      DecodeZero();
      fds := new Slot[S.MAX_FD](i => if 0 <= i < 3 then Slot(S.DEV_NULL, 0, 0) else Slot(S.Null, 0, 0));
      maxFd := -1;
      this.devices := devices;
      new;
      assert Pool().fds == S.Boot().fds;
      P.BootInv();
    }

    // The first device registered under the name, or no device if there is none.
    ghost predicate Found(name: string, dev: S.Dev)
      reads this`devices
    {
      if dev.Device? then
        exists i :: 0 <= i < |devices| && devices[i].name == name && devices[i].id == dev.id
                    && forall j :: 0 <= j < i ==> devices[j].name != name
      else forall i :: 0 <= i < |devices| ==> devices[i].name != name
    }

    // alt_find_dev: memcmp over the name and its terminator, so the names must be equal.
    method FindDev(name: string) returns (dev: S.Dev)
      ensures (dev == S.Null || dev.Device?) && Found(name, dev)
    {
      for i := 0 to |devices|
        invariant forall j :: 0 <= j < i ==> devices[j].name != name
      {
        if devices[i].name == name {
          return S.Device(devices[i].id);
        }
      }
      return S.Null;
    }

    // alt_get_fd.
    method GetFd(dev: S.Dev) returns (rc: Code)
      requires P.Inv(Pool()) && dev != S.Null
      modifies this`maxFd, fds
      ensures (Pool(), rc) == S.GetFd(old(Pool()), dev)
    {
      ghost var p := Pool();
      for i := 0 to fds.Length
        invariant Pool() == p
        invariant S.FirstFree(p.fds, 0) == S.FirstFree(p.fds, i)
      {
        if fds[i].dev == S.Null {
          Assign(i, fds[i].(dev := dev));
          if i > maxFd {
            maxFd := i;
          }
          return Ok(i);
        }
      }
      return Fail(EMFILE);
    }

    // alt_release_fd.
    method Release(fd: int)
      requires fd < fds.Length
      modifies fds
      ensures Pool() == S.Release(old(Pool()), fd)
    {
      if fd > 2 {
        DecodeZero();
        Assign(fd, fds[fd].(flags := 0, dev := S.Null));
      }
    }

    // alt_file_locked, for the descriptor of a device in slot k.
    method FileLocked(k: nat) returns (rc: Code)
      requires S.Shaped(Pool()) && k <= maxFd
      modifies fds
      ensures Pool() == old(Pool()).(fds := old(Pool()).fds[k := old(Pool()).fds[k].(flags := old(Pool()).fds[k].flags.(dev := true))])
      ensures rc == if S.LockedElsewhere(Pool(), k) then Fail(EACCES) else Ok(0)
    {
      DecodeDevice(fds[k].flags);
      Assign(k, fds[k].(flags := fds[k].flags | FD_DEV));
      var i := 0;
      while i <= maxFd
        invariant i <= maxFd + 1
        invariant forall j :: 0 <= j < i && j != k && fds[j].dev == fds[k].dev ==> !Decode(fds[j].flags).excl
      {
        if fds[i].dev == fds[k].dev && fds[i].flags & FD_EXCL != 0 && i != k {
          assert Pool().fds[i].flags.excl;
          return Fail(EACCES);
        }
        i := i + 1;
      }
      return Ok(0);
    }

    // The flags of a slot just taken, and the lock check if it is a device's.
    method Take(k: nat, req: S.OpenReq) returns (status: Code)
      requires S.Shaped(Pool()) && k <= maxFd && Pool().fds[k].dev == req.dev
      modifies fds
      ensures Pool() == S.Taken(old(Pool()), k, req)
      ensures status == if req.dev.Device? && S.LockedElsewhere(Pool(), k) then Fail(EACCES) else Ok(0)
    {
      hide Decode, Opened, S.LockedElsewhere;
      ghost var p := Pool();
      var flags := Opened(req.flags);
      DecodeOpened(req.flags);
      Assign(k, fds[k].(flags := flags));
      status := Ok(0);
      if req.dev.Device? {
        status := FileLocked(k);
        P.UpdateTwice(p.fds, k, p.fds[k].(flags := Flags(false, false, flags)), p.fds[k].(flags := Flags(false, true, flags)));
        assert Pool() == S.Taken(p, k, req);
      }
    }

    // The driver's own word, which its open() leaves in the slot.
    method SetPriv(k: nat, priv: int)
      requires k < fds.Length
      modifies fds
      ensures Pool() == old(Pool()).(fds := old(Pool()).fds[k := old(Pool()).fds[k].(priv := priv)])
    {
      Assign(k, fds[k].(priv := priv));
    }

    // ALT_OPEN, once the name has been looked up.
    method OpenDev(req: S.OpenReq) returns (rc: Code)
      requires Valid()
      modifies this`maxFd, fds
      ensures Valid()
      ensures (Pool(), rc) == S.Open(old(Pool()), req)
    {
      hide Decode, Opened, Show, S.LockedElsewhere, P.SlotOk, P.Clash, P.TopAlone;
      P.OpenInv(Pool(), req);
      var status: Code := Fail(ENODEV);
      var index: int := -1;
      if req.dev != S.Null {
        P.GetFdInv(Pool(), req.dev);
        var got := GetFd(req.dev);
        if got.Fail? {
          status := got;
        } else {
          index := got.value;
          status := Take(index, req);
          if status.Ok? {
            SetPriv(index, req.reply.priv);
            status := if req.reply.status < 0 then Fail(EDriver(-req.reply.status)) else Ok(req.reply.status);
          }
        }
      }
      if status.Fail? {
        Release(index);
        return status;
      }
      return Ok(index);
    }

    // ALT_OPEN.  `fs` is what alt_find_file returns for the name.
    method Open(name: string, flags: bv32, fs: S.Dev, reply: S.Reply) returns (rc: Code, ghost dev: S.Dev)
      requires Valid() && !fs.Device?
      modifies this`maxFd, fds
      ensures Valid()
      ensures Found(name, dev) && (!dev.Device? ==> dev == fs)
      ensures (Pool(), rc) == S.Open(old(Pool()), S.OpenReq(dev, flags, reply))
    {
      var found := FindDev(name);
      if found == S.Null {
        found := fs;
      }
      dev := found;
      rc := OpenDev(S.OpenReq(found, flags, reply));
    }

    // ALT_CLOSE, where rval is what the driver's close() returns, zero if it has none.
    method Close(fildes: int, rval: int) returns (rc: Code)
      requires Valid() && S.Callable(Pool(), fildes)
      modifies fds
      ensures Valid()
      ensures (Pool(), rc) == S.Close(old(Pool()), fildes, rval)
    {
      if fildes >= 0 {
        P.ReleaseInv(Pool(), fildes);
        Release(fildes);
        if rval < 0 {
          return Fail(EDriver(-rval));
        }
        return Ok(0);
      } else {
        return Fail(EBADFD);
      }
    }

    // alt_fd_lock: the loop stops before slot maxFd.
    method FdLock(k: nat) returns (rc: Code)
      requires Valid() && k < fds.Length && Pool().fds[k].flags.dev
      modifies fds
      ensures Valid()
      ensures (Pool(), rc) == S.Lock(old(Pool()), k)
    {
      hide P.SlotOk, P.Clash, P.TopAlone;
      P.LockInv(Pool(), k);
      var i := 0;
      while i < maxFd
        invariant i <= maxFd || i == 0
        invariant forall j :: 0 <= j < i && j != k ==> fds[j].dev != fds[k].dev
      {
        if i != k && fds[i].dev == fds[k].dev {
          assert Pool().fds[i].dev == Pool().fds[k].dev;
          return Fail(EACCES);
        }
        i := i + 1;
      }
      assert !S.SharedBelow(Pool(), k);
      DecodeLocked(fds[k].flags);
      Assign(k, fds[k].(flags := fds[k].flags | FD_EXCL));
      return Ok(0);
    }

    // alt_fd_unlock.
    method FdUnlock(k: nat) returns (rc: Code)
      requires Valid() && k < fds.Length && fds[k].dev != S.Null
      modifies fds
      ensures Valid()
      ensures (Pool(), rc) == S.Unlock(old(Pool()), k)
    {
      P.UnlockInv(Pool(), k);
      DecodeUnlocked(fds[k].flags);
      Assign(k, fds[k].(flags := fds[k].flags & !FD_EXCL));
      return Ok(0);
    }

    // ALT_IOCTL, where `driver` is what the driver's ioctl() returns, if it has one.
    method Ioctl(file: int, req: S.Request, driver: Option<int>) returns (rc: Code)
      requires Valid() && S.Callable(Pool(), file)
      modifies fds
      ensures Valid()
      ensures (Pool(), rc) == S.Ioctl(old(Pool()), file, req, driver)
    {
      if file >= 0 {
        if fds[file].flags & FD_DEV != 0 {
          assert Pool().fds[file].flags.dev;
          if req == S.TIOCEXCL {
            rc := FdLock(file);
            return;
          } else if req == S.TIOCNXCL {
            rc := FdUnlock(file);
            return;
          }
        }
        if driver.Some? {
          return S.DriverCode(driver.value);
        } else {
          return Fail(ENOTTY);
        }
      } else {
        return Fail(EBADFD);
      }
    }

    static method StatusWord(flags: bv32, arg: bv32) returns (w: bv32)
      ensures Decode(w) == Decode(flags).(user := WithStatus(Decode(flags).user, arg))
    {
      w := (flags & !FCNTL_MASK) | (arg & FCNTL_MASK);
      DecodeStatus(flags, arg);
    }

    // The F_SETFL case of ALT_FCNTL.
    method SetStatus(k: nat, arg: bv32)
      requires k < fds.Length
      modifies fds
      ensures var fd := old(Pool()).fds[k];
        Pool() == old(Pool()).(fds := old(Pool()).fds[k :=
          fd.(flags := fd.flags.(user := WithStatus(fd.flags.user, arg)))])
    {
      var flags := StatusWord(fds[k].flags, arg);
      Assign(k, fds[k].(flags := flags));
    }

    // ALT_FCNTL.
    method Fcntl(file: int, cmd: S.Command) returns (rc: S.FcntlCode)
      requires Valid() && S.Callable(Pool(), file)
      modifies fds
      ensures Valid()
      ensures (Pool(), rc) == S.Fcntl(old(Pool()), file, cmd)
    {
      P.FcntlInv(Pool(), file, cmd);
      if file >= 0 {
        match cmd
        case GetFl =>
          return S.Flagged(fds[file].flags & !FD_MASK);
        case SetFl(arg) =>
          SetStatus(file, arg);
          return S.Done;
        case OtherCmd =>
          return S.Failed(EINVAL);
      }
      return S.Failed(EBADFD);
    }

    // alt_open_fd, on a standard slot.
    method OpenFd(to: nat, req: S.OpenReq)
      requires Valid() && to < 3
      modifies this`maxFd, fds
      ensures Valid()
      ensures Pool() == S.OpenInto(old(Pool()), to, req)
    {
      P.OpenIntoInv(Pool(), to, req);
      var old' := OpenDev(req);
      if old'.Ok? {
        Assign(to, fds[old'.value]);
        Release(old'.value);
      }
    }

    // alt_io_redirect: stdout, stdin, then stderr.
    method IoRedirect(stdout: S.OpenReq, stdin: S.OpenReq, stderr: S.OpenReq)
      requires Valid()
      modifies this`maxFd, fds
      ensures Valid()
      ensures Pool() == S.OpenInto(S.OpenInto(S.OpenInto(old(Pool()), 1, stdout), 0, stdin), 2, stderr)
    {
      OpenFd(1, stdout);
      OpenFd(0, stdin);
      OpenFd(2, stderr);
    }
  }
}
