/** What every reachable descriptor pool keeps, and what an exclusive lock guarantees. */
module FdProof {
  import opened Words
  import opened FdFlags
  import opened FdSpec

  // ---------- The invariant ----------

  ghost predicate SlotOk(p: Pool, i: nat)
    requires Shaped(p) && i < MAX_FD
  {
    var fd := p.fds[i];
    && (i < 3 ==> fd.dev != Null)
    && (fd.dev == Null ==> fd.flags == CLEAR)
    && (3 <= i && fd.dev != Null ==> i <= p.maxFd)
    && (fd.flags.excl ==> fd.flags.dev)
    && (fd.flags.dev ==> fd.dev.Device? && p.maxFd >= 3)
  }

  // Both hold the lock of one device.
  ghost predicate Clash(p: Pool, i: nat, j: nat)
    requires Shaped(p) && i < MAX_FD && j < MAX_FD
  {
    i != j && p.fds[i].dev == p.fds[j].dev && p.fds[i].flags.excl && p.fds[j].flags.excl
  }

  // The slot at the high-water mark, which alt_fd_lock does not look at, shares no device it has locked.
  ghost predicate TopAlone(p: Pool)
    requires Shaped(p)
  {
    p.maxFd >= 0 && p.fds[p.maxFd].flags.excl ==>
      forall i :: 0 <= i < MAX_FD && i != p.maxFd ==> p.fds[i].dev != p.fds[p.maxFd].dev
  }

  ghost predicate Inv(p: Pool) {
    && Shaped(p)
    && (p.maxFd == -1 || p.maxFd >= 3)
    && (forall i :: 0 <= i < MAX_FD ==> SlotOk(p, i))
    && (forall i, j :: 0 <= i < MAX_FD && 0 <= j < MAX_FD ==> !Clash(p, i, j))
    && TopAlone(p)
  }

  lemma BootInv()
    ensures Inv(Boot())
    ensures |Boot().fds| == 32 && Boot().maxFd == -1
    ensures forall i :: 0 <= i < 32 ==>
      Boot().fds[i] == Fd(if i < 3 then DEV_NULL else Null, 0, Flags(false, false, 0))
  {
  }

  // Slot k changed, nothing else; no lock appears, and the device stays or the slot is freed.
  lemma Weaken(p: Pool, k: nat, fd: Fd)
    requires Inv(p) && k < MAX_FD
    requires fd.flags.excl ==> p.fds[k].flags.excl
    requires fd.flags.dev ==> p.fds[k].flags.dev
    requires fd.dev == p.fds[k].dev || (fd.dev == Null && k >= 3)
    requires fd.dev == Null ==> fd.flags == CLEAR
    requires fd.flags.excl ==> fd.flags.dev
    ensures Inv(p.(fds := p.fds[k := fd]))
  {
    var q := p.(fds := p.fds[k := fd]);
    forall i | 0 <= i < MAX_FD ensures SlotOk(q, i) {
      assert SlotOk(p, i);
    }
    forall i, j | 0 <= i < MAX_FD && 0 <= j < MAX_FD ensures !Clash(q, i, j) {
      assert !Clash(p, i, j);
      assert SlotOk(p, i) && SlotOk(p, j);
    }
    assert p.maxFd >= 0 ==> SlotOk(p, p.maxFd);
  }

  lemma ReleaseInv(p: Pool, k: int)
    requires Inv(p) && k < MAX_FD
    ensures Inv(Release(p, k))
  {
    if k > 2 {
      Weaken(p, k, p.fds[k].(dev := Null, flags := CLEAR));
    }
  }

  lemma UnlockInv(p: Pool, k: nat)
    requires Inv(p) && k < MAX_FD && p.fds[k].dev != Null
    ensures Inv(Unlock(p, k).0)
  {
    Weaken(p, k, p.fds[k].(flags := p.fds[k].flags.(excl := false)));
  }

  lemma FcntlInv(p: Pool, file: int, cmd: Command)
    requires Inv(p) && Callable(p, file)
    ensures Inv(Fcntl(p, file, cmd).0)
  {
    if file >= 0 && cmd.SetFl? {
      var flags := p.fds[file].flags;
      assert SlotOk(p, file);
      Weaken(p, file, p.fds[file].(flags := flags.(user := WithStatus(flags.user, cmd.arg))));
    }
  }

  // The lock loop stops short of slot maxFd, yet no second lock on a device is ever granted.
  lemma LockInv(p: Pool, k: nat)
    requires Inv(p) && k < MAX_FD && p.fds[k].flags.dev
    ensures Inv(Lock(p, k).0)
  {
    if !SharedBelow(p, k) {
      var q := Lock(p, k).0;
      assert SlotOk(p, k);
      forall i | 0 <= i < MAX_FD ensures SlotOk(q, i) {
        assert SlotOk(p, i);
      }
      forall i, j | 0 <= i < MAX_FD && 0 <= j < MAX_FD ensures !Clash(q, i, j) {
        assert !Clash(p, i, j);
        assert SlotOk(p, i) && SlotOk(p, j);
      }
      forall i | 0 <= i < MAX_FD && i != q.maxFd && k == q.maxFd ensures q.fds[i].dev != q.fds[k].dev {
        assert SlotOk(p, i);
      }
    }
  }

  // ---------- Opening ----------

  lemma GetFdInv(p: Pool, dev: Dev)
    requires Inv(p) && dev != Null
    ensures GetFd(p, dev).1.Ok? ==>
      var (q, rc) := GetFd(p, dev);
      && 3 <= rc.value < MAX_FD
      && p.fds[rc.value].dev == Null && rc.value <= q.maxFd && p.maxFd <= q.maxFd < MAX_FD
      && (q.maxFd == p.maxFd || q.maxFd == rc.value)
  {
    var k := FirstFree(p.fds, 0);
    assert k < 3 ==> SlotOk(p, k);
  }

  // A free slot may be given a device that no descriptor has locked.
  lemma AddInv(p: Pool, k: nat, fd: Fd, max: int)
    requires Inv(p) && 3 <= k <= max < MAX_FD && p.fds[k].dev == Null
    requires max == p.maxFd || (p.maxFd < k && max == k)
    requires fd.dev != Null && !fd.flags.excl && (fd.flags.dev <==> fd.dev.Device?)
    requires fd.dev.Device? ==> forall i :: 0 <= i < MAX_FD && p.fds[i].dev == fd.dev ==> !p.fds[i].flags.excl
    ensures Inv(Pool(p.fds[k := fd], max))
  {
    var q := Pool(p.fds[k := fd], max);
    forall i | 0 <= i < MAX_FD ensures SlotOk(q, i) {
      assert SlotOk(p, i);
    }
    forall i, j | 0 <= i < MAX_FD && 0 <= j < MAX_FD ensures !Clash(q, i, j) {
      assert !Clash(p, i, j);
    }
    assert p.maxFd >= 0 ==> SlotOk(p, p.maxFd);
  }

  // Device and flags of every slot are as before.
  ghost predicate SameSlots(p: Pool, q: Pool)
    requires Shaped(p) && Shaped(q)
  {
    forall i :: 0 <= i < MAX_FD ==> p.fds[i].dev == q.fds[i].dev && p.fds[i].flags == q.fds[i].flags
  }

  // The high-water mark may have moved up to a slot that is free again.
  lemma SameSlotsInv(p: Pool, q: Pool)
    requires Inv(p) && Shaped(q) && SameSlots(p, q)
    requires q.maxFd == p.maxFd || (3 <= q.maxFd && p.maxFd < q.maxFd && q.fds[q.maxFd].dev == Null)
    ensures Inv(q)
  {
    forall i | 0 <= i < MAX_FD ensures SlotOk(q, i) {
      assert SlotOk(p, i);
    }
    forall i, j | 0 <= i < MAX_FD && 0 <= j < MAX_FD ensures !Clash(q, i, j) {
      assert !Clash(p, i, j);
    }
    assert p.maxFd >= 0 ==> SlotOk(p, p.maxFd);
    assert q.maxFd >= 0 ==> SlotOk(q, q.maxFd);
  }

  // Some descriptor holds the lock of the device.
  ghost predicate Locked(p: Pool, dev: Dev)
    requires Shaped(p)
  {
    exists i :: 0 <= i < MAX_FD && p.fds[i].dev == dev && p.fds[i].flags.excl
  }

  // alt_file_locked looks at every slot that can hold a lock.
  lemma LockSeen(p: Pool, got: Pool, k: nat, req: OpenReq)
    requires Inv(p) && 3 <= k <= got.maxFd < MAX_FD && p.maxFd <= got.maxFd
    requires p.fds[k].dev == Null && req.dev.Device?
    requires got.fds == p.fds[k := p.fds[k].(dev := req.dev)]
    ensures LockedElsewhere(Taken(got, k, req), k) <==> Locked(p, req.dev)
  {
    assert SlotOk(p, k);
    var taken := Taken(got, k, req);
    assert forall i :: 0 <= i < MAX_FD && i != k ==> taken.fds[i] == p.fds[i];
    if i :| 0 <= i < MAX_FD && p.fds[i].dev == req.dev && p.fds[i].flags.excl {
      assert SlotOk(p, i);
      assert 0 <= i <= taken.maxFd && taken.fds[i].flags.excl;
    }
  }

  // A locked device is not opened.
  lemma LockedFails(p: Pool, req: OpenReq)
    requires Inv(p) && req.dev.Device? && Locked(p, req.dev)
    ensures Open(p, req).1.Fail?
  {
    if GetFd(p, req.dev).1.Ok? {
      GetFdInv(p, req.dev);
      LockSeen(p, GetFd(p, req.dev).0, GetFd(p, req.dev).1.value, req);
    }
  }

  // A successful open() takes the first free slot, for a device nobody has locked.
  lemma OpenTakes(p: Pool, req: OpenReq)
    requires Inv(p) && Open(p, req).1.Ok?
    ensures var (q, rc) := Open(p, req);
      var k := rc.value;
      && 3 <= k <= q.maxFd && p.fds[k].dev == Null
      && p.maxFd <= q.maxFd && (q.maxFd == p.maxFd || q.maxFd == k)
      && q.fds == p.fds[k := Fd(req.dev, req.reply.priv, Flags(false, req.dev.Device?, Opened(req.flags)))]
      && req.dev != Null && (req.dev.Device? ==> !Locked(p, req.dev))
  {
    GetFdInv(p, req.dev);
    var (got, rc) := GetFd(p, req.dev);
    if req.dev.Device? && Locked(p, req.dev) {
      LockedFails(p, req);
    }
    var fd := Taken(got, rc.value, req).fds[rc.value];
    UpdateTwice(p.fds, rc.value, got.fds[rc.value], fd);
    UpdateTwice(p.fds, rc.value, fd, fd.(priv := req.reply.priv));
  }

  // A failed one leaves every slot alone, though the high-water mark may have moved.
  lemma OpenLeaves(p: Pool, req: OpenReq)
    requires Inv(p) && Open(p, req).1.Fail?
    ensures var q := Open(p, req).0;
      && p.maxFd <= q.maxFd && SameSlots(p, q)
      && (q.maxFd == p.maxFd || (3 <= q.maxFd && q.fds[q.maxFd].dev == Null))
  {
    if req.dev != Null && GetFd(p, req.dev).1.Ok? {
      GetFdInv(p, req.dev);
      var (got, rc) := GetFd(p, req.dev);
      var taken := Taken(got, rc.value, req);
      ReleasedSame(p, taken, rc.value);
      ReleasedSame(p, taken.(fds := taken.fds[rc.value := taken.fds[rc.value].(priv := req.reply.priv)]), rc.value);
    }
  }

  lemma UpdateTwice(fds: seq<Fd>, k: nat, a: Fd, b: Fd)
    requires k < |fds|
    ensures fds[k := a][k := b] == fds[k := b]
  {
  }

  lemma ReleasedSame(p: Pool, q: Pool, k: nat)
    requires Inv(p) && Shaped(q) && 3 <= k < MAX_FD && p.fds[k].dev == Null
    requires forall i :: 0 <= i < MAX_FD && i != k ==> q.fds[i] == p.fds[i]
    ensures SameSlots(p, Release(q, k)) && Release(q, k).fds[k].dev == Null
  {
    assert SlotOk(p, k);
  }

  // All of open(): the descriptors of a locked device are not added to.
  lemma OpenInv(p: Pool, req: OpenReq)
    requires Inv(p)
    ensures Inv(Open(p, req).0)
  {
    var (q, rc) := Open(p, req);
    if rc.Fail? {
      OpenLeaves(p, req);
      SameSlotsInv(p, q);
    } else {
      OpenTakes(p, req);
      AddInv(p, rc.value, q.fds[rc.value], q.maxFd);
    }
  }

  // While a device is locked, open() of it fails and changes no slot's device or flags.
  lemma LockedOpenDenied(p: Pool, req: OpenReq)
    requires Inv(p) && req.dev.Device? && Locked(p, req.dev)
    ensures Open(p, req).1.Fail? && SameSlots(p, Open(p, req).0)
  {
    LockedFails(p, req);
    OpenLeaves(p, req);
  }

  // close() undoes a successful open(): every slot is as it was.
  lemma CloseUndoesOpen(p: Pool, req: OpenReq, rval: int)
    requires Inv(p) && Open(p, req).1.Ok?
    ensures var (q, rc) := Open(p, req);
      Callable(q, rc.value) && SameSlots(p, Close(q, rc.value, rval).0)
  {
    OpenTakes(p, req);
    assert SlotOk(p, Open(p, req).1.value);
  }

  // ---------- What each call achieves ----------

  // The slots other than k, and the high-water mark, are as before.
  ghost predicate OnlySlot(p: Pool, q: Pool, k: nat)
    requires Shaped(p) && Shaped(q)
  {
    p.maxFd == q.maxFd && forall i :: 0 <= i < MAX_FD && i != k ==> p.fds[i] == q.fds[i]
  }

  // TIOCNXCL on the descriptor that holds a device's lock: the device is unlocked, only the lock bit has
  // changed, and open() of it succeeds again wherever a slot is free and the driver agrees.
  lemma UnlockReleases(p: Pool, k: nat, dev: Dev, driver: Option<int>, req: OpenReq)
    requires Inv(p) && k < MAX_FD && HoldsLock(p, k, dev)
    requires req.dev == dev && req.reply.status >= 0
    ensures Callable(p, k)
    ensures var (q, rc) := Ioctl(p, k, TIOCNXCL, driver);
      && rc == Ok(0) && Inv(q) && OnlySlot(p, q, k)
      && !Locked(q, dev) && !q.fds[k].flags.excl
      && q.fds[k].dev == dev && q.fds[k].priv == p.fds[k].priv
      && q.fds[k].flags.dev && q.fds[k].flags.user == p.fds[k].flags.user
      && (Open(q, req).1.Ok? <==> HasFree(p))
  {
    assert SlotOk(p, k);
    UnlockInv(p, k);
    var q := Unlock(p, k).0;
    forall i | 0 <= i < MAX_FD ensures !(q.fds[i].dev == dev && q.fds[i].flags.excl) {
      assert !Clash(p, i, k);
    }
    assert HasFree(p) <==> HasFree(q) by {
      hide Inv, Locked, HoldsLock;
      forall i | 0 <= i < MAX_FD ensures p.fds[i].dev == Null <==> q.fds[i].dev == Null {}
    }
    OpenOutcome(q, req);
  }

  // TIOCEXCL: a lock that is granted is held, and only its bit has changed; one refused changes nothing.
  lemma LockOutcome(p: Pool, k: nat, driver: Option<int>)
    requires Inv(p) && k < MAX_FD && p.fds[k].flags.dev
    ensures Callable(p, k)
    ensures var (q, rc) := Ioctl(p, k, TIOCEXCL, driver);
      && (rc == Ok(0) || (rc == Fail(EACCES) && q == p))
      && (rc.Ok? ==> OnlySlot(p, q, k) && HoldsLock(q, k, p.fds[k].dev)
                     && q.fds[k] == p.fds[k].(flags := p.fds[k].flags.(excl := true)))
  {
    assert SlotOk(p, k);
  }

  // Any other request, and any request on a file, is the driver's: the table stays.
  lemma IoctlForwards(p: Pool, file: int, request: Request, driver: Option<int>)
    requires Shaped(p) && Callable(p, file)
    requires file >= 0 ==> request.Other? || !p.fds[file].flags.dev
    ensures var (q, rc) := Ioctl(p, file, request, driver);
      && q == p
      && (file < 0 ==> rc == Fail(EBADFD))
      && (file >= 0 && driver == None ==> rc == Fail(ENOTTY))
      && (file >= 0 && driver.Some? && driver.value < 0 ==> rc == Fail(EDriver(-driver.value)))
      && (file >= 0 && driver.Some? && driver.value >= 0 ==> rc == Ok(driver.value))
  {
  }

  ghost predicate HasFree(p: Pool)
    requires Shaped(p)
  {
    exists i :: 0 <= i < MAX_FD && p.fds[i].dev == Null
  }

  // Why open() has to fail, if it has.
  ghost function Refusal(p: Pool, req: OpenReq): Option<Errno>
    requires Shaped(p)
  {
    if req.dev == Null then Some(ENODEV)
    else if !HasFree(p) then Some(EMFILE)
    else if req.dev.Device? && Locked(p, req.dev) then Some(EACCES)
    else if req.reply.status < 0 then Some(EDriver(-req.reply.status))
    else None
  }

  // open() succeeds exactly if the name was found, a slot is free, the device is not locked and the driver
  // agrees; then the descriptor is the least free one.  Each failure has its error code.
  lemma OpenOutcome(p: Pool, req: OpenReq)
    requires Inv(p)
    ensures var rc := Open(p, req).1;
      && (rc.Ok? <==> req.dev != Null && HasFree(p) && (req.dev.Device? ==> !Locked(p, req.dev))
                      && req.reply.status >= 0)
      && (rc.Ok? ==> p.fds[rc.value].dev == Null && forall i :: 0 <= i < rc.value ==> p.fds[i].dev != Null)
      && (rc.Fail? ==> Refusal(p, req) == Some(rc.errno))
  {
    if req.dev != Null {
      GetFdLeast(p, req.dev);
      FreeIff(p, req.dev);
      if GetFd(p, req.dev).1.Ok? {
        GetFdInv(p, req.dev);
        if req.dev.Device? {
          LockSeen(p, GetFd(p, req.dev).0, GetFd(p, req.dev).1.value, req);
        }
      }
    }
  }

  lemma FreeIff(p: Pool, dev: Dev)
    requires Inv(p) && dev != Null
    ensures HasFree(p) <==> GetFd(p, dev).1.Ok?
  {
    hide SlotOk, Clash, TopAlone;
    var k := FirstFree(p.fds, 0);
    if k < |p.fds| {
      assert p.fds[k].dev == Null;
    }
  }

  // What F_GETFL returns for a descriptor just opened: the flags asked for, less the two reserved bits.
  lemma OpenedFlags(p: Pool, req: OpenReq)
    requires Inv(p) && Open(p, req).1.Ok?
    ensures var (q, rc) := Open(p, req);
      Used(q, rc.value) && Fcntl(q, rc.value, GetFl) == (q, Flagged(Opened(req.flags)))
  {
    hide Opened, Open, SlotOk, Clash, TopAlone;
    OpenTakes(p, req);
  }

  // The errors of fcntl, and that they change nothing.
  lemma FcntlErrors(p: Pool, file: int, cmd: Command)
    requires Callable(p, file) && (file < 0 || cmd == OtherCmd)
    ensures Fcntl(p, file, cmd) == (p, Failed(if file < 0 then EBADFD else EINVAL))
  {
  }

  // close(): a slot above 2 is free afterwards, whatever the driver answers; its answer is the result.
  lemma CloseOutcome(p: Pool, file: int, rval: int)
    requires Inv(p) && Callable(p, file)
    ensures var (q, rc) := Close(p, file, rval);
      && (file <= 2 ==> q == p)
      && (file > 2 ==> OnlySlot(p, q, file) && q.fds[file].dev == Null && q.fds[file].flags == CLEAR)
      && (rc.Ok? <==> file >= 0 && rval >= 0) && (rc.Ok? ==> rc.value == 0)
      && (rc.Fail? ==> rc.errno == if file < 0 then EBADFD else EDriver(-rval))
  {
  }

  // Redirection that succeeds gives the standard slot the device, the driver's own word and the flags of
  // the new descriptor; one that fails leaves it.
  lemma OpenIntoTakes(p: Pool, to: nat, req: OpenReq)
    requires Inv(p) && to < 3
    ensures OpenInto(p, to, req).fds[to] ==
            if Open(p, req).1.Ok? then Fd(req.dev, req.reply.priv, Flags(false, req.dev.Device?, Opened(req.flags)))
            else p.fds[to]
  {
    if Open(p, req).1.Ok? {
      OpenTakes(p, req);
    } else {
      OpenKeepsLow(p, to, req);
    }
  }

  lemma OpenKeepsLow(p: Pool, to: nat, req: OpenReq)
    requires Inv(p) && to < 3 && Open(p, req).1.Fail?
    ensures Open(p, req).0.fds[to] == p.fds[to]
  {
    if req.dev != Null && GetFd(p, req.dev).1.Ok? {
      GetFdInv(p, req.dev);
    }
  }

  // close() drops the lock of its descriptor exactly if that is not one of the three standard slots,
  // which alt_release_fd leaves alone.
  lemma CloseDropsLockIff(p: Pool, k: nat, rval: int)
    requires Inv(p) && k < MAX_FD && p.fds[k].flags.excl
    ensures Callable(p, k)
    ensures !Locked(Close(p, k, rval).0, p.fds[k].dev) <==> k > 2
  {
    var q := Release(p, k);
    assert SlotOk(p, k);
    if k > 2 {
      forall i | 0 <= i < MAX_FD ensures !(q.fds[i].dev == p.fds[k].dev && q.fds[i].flags.excl) {
        assert !Clash(p, i, k);
      }
    }
  }

  // F_GETFL returns the status bits F_SETFL wrote, all others are as before, and writing the word read
  // before gives back the pool.
  lemma FcntlRoundTrip(p: Pool, file: int, arg: bv32)
    requires Used(p, file)
    ensures var before, q := Fcntl(p, file, GetFl).1, Fcntl(p, file, SetFl(arg)).0;
      && before.Flagged? && Used(q, file)
      && var after := Fcntl(q, file, GetFl).1;
      && after.Flagged?
      && after.flags & FCNTL_MASK == arg & FCNTL_MASK
      && after.flags & !FCNTL_MASK == before.flags & !FCNTL_MASK
      && Fcntl(q, file, SetFl(before.flags)).0 == p
  {
    hide WithStatus;
    var user := p.fds[file].flags.user;
    StatusReadsBack(user, arg);
    StatusLeaves(user, arg);
    StatusRestores(user, arg);
    var fd := p.fds[file];
    UpdateTwice(p.fds, file, fd.(flags := fd.flags.(user := WithStatus(user, arg))), fd);
  }

  // alt_get_fd hands out the least free slot, and fails exactly when none is free.
  lemma GetFdLeast(p: Pool, dev: Dev)
    requires Inv(p) && dev != Null
    ensures var (q, rc) := GetFd(p, dev);
      && (rc == Fail(EMFILE) <==> forall i :: 0 <= i < MAX_FD ==> p.fds[i].dev != Null)
      && (rc.Fail? ==> q == p)
      && (rc.Ok? ==> OnlySlot(p.(maxFd := q.maxFd), q, rc.value) && q.fds[rc.value] == p.fds[rc.value].(dev := dev)
                     && q.maxFd == if rc.value > p.maxFd then rc.value else p.maxFd)
      && forall k: nat :: rc == Ok(k) <==> k < MAX_FD && p.fds[k].dev == Null && forall i :: 0 <= i < k ==> p.fds[i].dev != Null
  {
    var k := FirstFree(p.fds, 0);
  }

  lemma MoveInv(p: Pool, to: nat, k: nat)
    requires Inv(p) && to < 3 <= k < MAX_FD && p.fds[k].dev != Null && !p.fds[k].flags.excl
    requires p.fds[k].dev.Device? ==> !Locked(p, p.fds[k].dev)
    ensures Inv(Release(p.(fds := p.fds[to := p.fds[k]]), k))
  {
    var q := Release(p.(fds := p.fds[to := p.fds[k]]), k);
    assert SlotOk(p, k);
    forall i | 0 <= i < MAX_FD ensures SlotOk(q, i) {
      assert SlotOk(p, i);
    }
    forall i, j | 0 <= i < MAX_FD && 0 <= j < MAX_FD ensures !Clash(q, i, j) {
      assert !Clash(p, i, j);
    }
    assert SlotOk(p, p.maxFd);
  }

  // Redirection moves the new descriptor into a standard slot: it keeps the invariant, leaves the
  // device and flags of every slot from 3 on, and gives no slot a lock.
  lemma OpenIntoInv(p: Pool, to: nat, req: OpenReq)
    requires Inv(p) && to < 3
    ensures Inv(OpenInto(p, to, req))
    ensures var q := OpenInto(p, to, req);
      forall i :: 0 <= i < MAX_FD && i != to ==> p.fds[i].dev == q.fds[i].dev && p.fds[i].flags == q.fds[i].flags
    ensures var q := OpenInto(p, to, req);
      q.fds[to].flags.excl ==> p.fds[to].dev == q.fds[to].dev && p.fds[to].flags == q.fds[to].flags
    ensures req.dev.Device? && Locked(p, req.dev) ==> SameSlots(p, OpenInto(p, to, req))
  {
    OpenInv(p, req);
    var (q, rc) := Open(p, req);
    if rc.Ok? {
      OpenTakes(p, req);
      assert SlotOk(p, rc.value);
      assert req.dev.Device? ==> !Locked(q, req.dev);
      MoveInv(q, to, rc.value);
    } else {
      OpenLeaves(p, req);
    }
  }

  // Redirecting all three standard slots leaves the device and flags of every slot from 3 on.
  lemma RedirectLeaves(p: Pool, stdout: OpenReq, stdin: OpenReq, stderr: OpenReq)
    requires Inv(p)
    ensures var q := OpenInto(OpenInto(OpenInto(p, 1, stdout), 0, stdin), 2, stderr);
      && Inv(q)
      && forall i :: 3 <= i < MAX_FD ==> p.fds[i].dev == q.fds[i].dev && p.fds[i].flags == q.fds[i].flags
  {
    hide OpenInto, SlotOk, Clash, TopAlone;
    var q1 := OpenInto(p, 1, stdout);
    OpenIntoInv(p, 1, stdout);
    OpenIntoInv(q1, 0, stdin);
    OpenIntoInv(OpenInto(q1, 0, stdin), 2, stderr);
  }

  // ---------- Runs ----------

  lemma StepInv(p: Pool, op: Op)
    requires Inv(p) && Legal(p, op)
    ensures Inv(Step(p, op))
  {
    match op
    case OpOpen(req) => OpenInv(p, req);
    case OpClose(file, _) => if file >= 0 { ReleaseInv(p, file); }
    case OpIoctl(file, request, _) =>
      if file >= 0 && p.fds[file].flags.dev {
        if request == TIOCEXCL { LockInv(p, file); } else if request == TIOCNXCL { UnlockInv(p, file); }
      }
    case OpFcntl(file, cmd) => FcntlInv(p, file, cmd);
    case OpOpenInto(to, req) => OpenIntoInv(p, to, req);
  }

  lemma {:induction false} TraceInv(ps: seq<Pool>, ops: seq<Op>, k: nat)
    requires Trace(ps, ops) && ps[0] == Boot() && k < |ps|
    ensures Inv(ps[k])
  {
    if k == 0 {
      BootInv();
    } else {
      TraceInv(ps, ops, k - 1);
      StepInv(ps[k - 1], ops[k - 1]);
    }
  }

  // In every reachable pool at most one descriptor of a device holds its lock, slots 0 to 2 are
  // occupied, free slots have no flags, and the high-water mark covers every slot opened.
  lemma ReachableSafe(p: Pool)
    requires Reachable(p)
    ensures Inv(p)
    ensures forall i, j :: 0 <= i < j < MAX_FD && p.fds[i].flags.excl && p.fds[j].flags.excl ==>
      p.fds[i].dev != p.fds[j].dev
    ensures forall i :: 0 <= i < 3 ==> p.fds[i].dev != Null
    ensures forall i :: 0 <= i < MAX_FD && p.fds[i].dev == Null ==> p.fds[i].flags == CLEAR
    ensures forall i :: 3 <= i < MAX_FD && p.fds[i].dev != Null ==> i <= p.maxFd
  {
    var ps: seq<Pool>, ops: seq<Op> :| Trace(ps, ops) && ps[0] == Boot() && ps[|ops|] == p;
    TraceInv(ps, ops, |ops|);
    forall i, j | 0 <= i < j < MAX_FD && p.fds[i].flags.excl && p.fds[j].flags.excl
      ensures p.fds[i].dev != p.fds[j].dev
    {
      assert !Clash(p, i, j);
    }
    forall i | 0 <= i < MAX_FD
      ensures i < 3 ==> p.fds[i].dev != Null
      ensures p.fds[i].dev == Null ==> p.fds[i].flags == CLEAR
      ensures 3 <= i && p.fds[i].dev != Null ==> i <= p.maxFd
    {
      assert SlotOk(p, i);
    }
  }

  // The slots that refer to a device.
  ghost function Users(p: Pool, dev: Dev): set<nat>
    requires Shaped(p)
  {
    set i | 0 <= i < MAX_FD && p.fds[i].dev == dev
  }

  ghost predicate HoldsLock(p: Pool, k: nat, dev: Dev)
    requires Shaped(p) && k < MAX_FD
  {
    dev.Device? && p.fds[k].dev == dev && p.fds[k].flags.excl
  }

  // No slot comes to refer to the device.
  ghost predicate NoNewUser(p: Pool, q: Pool, dev: Dev)
    requires Shaped(p) && Shaped(q)
  {
    forall i :: 0 <= i < MAX_FD && q.fds[i].dev == dev ==> p.fds[i].dev == dev
  }

  lemma OpenNoNewUser(p: Pool, req: OpenReq, dev: Dev)
    requires Inv(p) && dev.Device? && Locked(p, dev)
    ensures NoNewUser(p, Open(p, req).0, dev)
  {
    if Open(p, req).1.Ok? {
      OpenTakes(p, req);
    } else {
      OpenLeaves(p, req);
    }
  }

  lemma OpenIntoNoNewUser(p: Pool, to: nat, req: OpenReq, dev: Dev)
    requires Inv(p) && to < 3 && dev.Device? && Locked(p, dev)
    ensures NoNewUser(p, OpenInto(p, to, req), dev)
  {
    OpenNoNewUser(p, req, dev);
    if Open(p, req).1.Ok? {
      OpenTakes(p, req);
    }
  }

  lemma UsersStep(p: Pool, op: Op, dev: Dev)
    requires Inv(p) && Legal(p, op) && dev.Device? && Locked(p, dev)
    ensures NoNewUser(p, Step(p, op), dev)
  {
    match op
    case OpOpen(req) => OpenNoNewUser(p, req, dev);
    case OpClose(_, _) =>
    case OpIoctl(_, _, _) =>
    case OpFcntl(_, _) =>
    case OpOpenInto(to, req) => OpenIntoNoNewUser(p, to, req, dev);
  }

  // From the moment a descriptor holds the lock of a device, and as long as one does, no call adds a
  // user to that device.
  lemma {:induction false} LockedUsersNeverGrow(ps: seq<Pool>, ops: seq<Op>, dev: Dev, from: nat, to: nat)
    requires Trace(ps, ops) && ps[0] == Boot() && dev.Device?
    requires from <= to < |ps|
    requires forall n :: from <= n < to ==> Locked(ps[n], dev)
    ensures Users(ps[to], dev) <= Users(ps[from], dev)
  {
    hide Inv, Locked, Step, Legal;
    if from < to {
      LockedUsersNeverGrow(ps, ops, dev, from, to - 1);
      TraceInv(ps, ops, to - 1);
      UsersStep(ps[to - 1], ops[to - 1], dev);
    }
  }

  // ---------- What a granted lock is worth ----------

  ghost predicate Exclusive(p: Pool, k: nat)
    requires Shaped(p) && k < MAX_FD
  {
    forall i :: 0 <= i < MAX_FD && i != k ==> p.fds[i].dev != p.fds[k].dev
  }

  // A lock that alt_fd_lock grants is the device's only user exactly if the slot at the high-water
  // mark, which its loop leaves out, does not share the device.
  lemma GrantedExclusiveIff(p: Pool, k: nat)
    requires Inv(p) && k < MAX_FD && p.fds[k].flags.dev
    requires Lock(p, k).1.Ok?
    ensures 3 <= p.maxFd
    ensures Exclusive(Lock(p, k).0, k) <==> k == p.maxFd || p.fds[p.maxFd].dev != p.fds[k].dev
  {
    var q := Lock(p, k).0;
    assert SlotOk(p, k);
    if k == p.maxFd || p.fds[p.maxFd].dev != p.fds[k].dev {
      forall i | 0 <= i < MAX_FD && i != k ensures q.fds[i].dev != q.fds[k].dev {
        assert SlotOk(p, i);
      }
    } else {
      assert q.fds[p.maxFd].dev == q.fds[k].dev;
    }
  }

  // The lock is refused exactly if a lower slot than the high-water mark shares the device.
  lemma RefusedIff(p: Pool, k: nat)
    requires Inv(p) && k < MAX_FD && p.fds[k].flags.dev
    ensures Callable(p, k)
    ensures Ioctl(p, k, TIOCEXCL, None).1.Fail? <==>
      exists i :: 0 <= i < MAX_FD && i != k && i != p.maxFd && p.fds[i].dev == p.fds[k].dev
  {
    assert SlotOk(p, k);
    if i :| 0 <= i < MAX_FD && i != k && i != p.maxFd && p.fds[i].dev == p.fds[k].dev {
      assert SlotOk(p, i);
      assert 0 <= i < p.maxFd;
    }
  }

  // Two descriptors of one device, the second in the slot at the high-water mark: the first is
  // granted a lock that is not exclusive.
  lemma SharedLockReachable(a: OpenReq)
    requires a.dev.Device? && a.dev != DEV_NULL && a.reply.status >= 0
    ensures exists p :: Reachable(p) && HoldsLock(p, 3, a.dev) && !Exclusive(p, 3)
  {
    hide SlotOk, Clash, TopAlone;
    var ops := [OpOpen(a), OpOpen(a), OpIoctl(3, TIOCEXCL, None)];
    var p0 := Boot();
    BootInv();
    FirstOpen(p0, a, 3);
    var p1 := Step(p0, ops[0]);
    OpenInv(p0, a);
    FirstOpen(p1, a, 4);
    var p2 := Step(p1, ops[1]);
    var p3 := Step(p2, ops[2]);
    assert Trace([p0, p1, p2, p3], ops);
    assert HoldsLock(p3, 3, a.dev) && p3.fds[4].dev == p3.fds[3].dev;
  }

  // A standard slot can hold a lock: stdin redirected to the device, then locked.
  lemma StandardLockReachable(a: OpenReq)
    requires a.dev.Device? && a.dev != DEV_NULL && a.reply.status >= 0
    ensures exists p :: Reachable(p) && HoldsLock(p, 0, a.dev)
  {
    hide SlotOk, Clash, TopAlone;
    var ops := [OpOpenInto(0, a), OpIoctl(0, TIOCEXCL, None)];
    var p0 := Boot();
    BootInv();
    FirstOpen(p0, a, 3);
    OpenTakes(p0, a);
    var p1 := Step(p0, ops[0]);
    assert p1.maxFd == 3 && p1.fds[1].dev == p1.fds[2].dev == DEV_NULL;
    assert !SharedBelow(p1, 0);
    var p2 := Step(p1, ops[1]);
    assert Trace([p0, p1, p2], ops);
    assert HoldsLock(p2, 0, a.dev);
  }

  // Without locks open() succeeds on slot k if that is the first free one.
  lemma FirstOpen(p: Pool, req: OpenReq, k: nat)
    requires Inv(p) && 3 <= k < MAX_FD && req.dev.Device? && req.reply.status >= 0
    requires p.fds[k].dev == Null && forall i :: 0 <= i < k ==> p.fds[i].dev != Null
    requires !Locked(p, req.dev)
    ensures Open(p, req).1 == Ok(k)
  {
    GetFdLeast(p, req.dev);
    GetFdInv(p, req.dev);
    LockSeen(p, GetFd(p, req.dev).0, k, req);
  }
}
