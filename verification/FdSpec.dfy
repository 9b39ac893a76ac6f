/**
  The file-descriptor pool of the HAL on values: what every call makes of the 32 slots and the
  high-water mark.
 */
module FdSpec {
  import opened Words
  import opened FdFlags

  const MAX_FD := 32

  // A slot's device pointer.  Character devices and filesystems are registered in separate lists.
  datatype Dev = Null | Device(id: nat) | FileSystem(id: nat)

  const DEV_NULL := Device(0)

  datatype Fd = Fd(dev: Dev, priv: int, flags: Flags)

  datatype Pool = Pool(fds: seq<Fd>, maxFd: int)

  const CLEAR := Flags(false, false, 0)
  const FREE := Fd(Null, 0, CLEAR)

  // alt_fd_list and alt_max_fd at reset.
  function Boot(): Pool {
    Pool(seq(MAX_FD, i => if i < 3 then Fd(DEV_NULL, 0, CLEAR) else FREE), -1)
  }

  ghost predicate Shaped(p: Pool) {
    |p.fds| == MAX_FD && -1 <= p.maxFd < MAX_FD
  }

  predicate Used(p: Pool, i: int) {
    0 <= i < |p.fds| && p.fds[i].dev != Null
  }

  // ---------- alt_get_fd and alt_release_fd ----------

  function FirstFree(fds: seq<Fd>, i: nat): (k: nat)
    requires i <= |fds|
    ensures i <= k <= |fds|
    ensures forall j :: i <= j < k ==> fds[j].dev != Null
    ensures k < |fds| ==> fds[k].dev == Null
    decreases |fds| - i
  {
    if i == |fds| || fds[i].dev == Null then i else FirstFree(fds, i + 1)
  }

  function GetFd(p: Pool, dev: Dev): (Pool, Code) {
    var k := FirstFree(p.fds, 0);
    if k == |p.fds| then (p, Fail(EMFILE))
    else (Pool(p.fds[k := p.fds[k].(dev := dev)], if k > p.maxFd then k else p.maxFd), Ok(k))
  }

  function Release(p: Pool, k: int): Pool
    requires k < |p.fds|
  {
    if k > 2 then p.(fds := p.fds[k := p.fds[k].(dev := Null, flags := CLEAR)]) else p
  }

  // ---------- open ----------

  // What the driver's open() callback does: its status, and what it leaves in its descriptor's priv.
  datatype Reply = Reply(status: int, priv: int)

  datatype OpenReq = OpenReq(dev: Dev, flags: bv32, reply: Reply)

  ghost predicate LockedElsewhere(p: Pool, k: nat)
    requires Shaped(p) && k < MAX_FD
  {
    exists i :: 0 <= i <= p.maxFd && i != k && p.fds[i].dev == p.fds[k].dev && p.fds[i].flags.excl
  }

  // The slot just taken, as the descriptor of the request.
  ghost function Taken(p: Pool, k: nat, req: OpenReq): Pool
    requires Shaped(p) && k < MAX_FD
  {
    p.(fds := p.fds[k := p.fds[k].(flags := Flags(false, req.dev.Device?, Opened(req.flags)))])
  }

  ghost function Open(p: Pool, req: OpenReq): (r: (Pool, Code))
    requires Shaped(p)
    ensures Shaped(r.0)
    ensures r.1.Ok? ==> r.1.value < MAX_FD
  {
    if req.dev == Null then (p, Fail(ENODEV))
    else
      var (got, rc) := GetFd(p, req.dev);
      if rc.Fail? then (p, rc)
      else
        var k := rc.value;
        var taken := Taken(got, k, req);
        if req.dev.Device? && LockedElsewhere(taken, k) then (Release(taken, k), Fail(EACCES))
        else
          var ready := taken.(fds := taken.fds[k := taken.fds[k].(priv := req.reply.priv)]);
          if req.reply.status < 0 then (Release(ready, k), Fail(EDriver(-req.reply.status)))
          else (ready, Ok(k))
  }

  // ---------- close, ioctl, fcntl, redirection ----------

  function DriverCode(rc: int): Code {
    if rc < 0 then Fail(EDriver(-rc)) else Ok(rc)
  }

  // The caller passes a descriptor in range whose device is set, or a negative number.
  predicate Callable(p: Pool, file: int) {
    file < 0 || Used(p, file)
  }

  function Close(p: Pool, file: int, rval: int): (Pool, Code)
    requires Callable(p, file)
  {
    if file < 0 then (p, Fail(EBADFD))
    else (Release(p, file), if rval < 0 then Fail(EDriver(-rval)) else Ok(0))
  }

  // The device is shared with a slot below the high-water mark: what alt_fd_lock looks for.
  ghost predicate SharedBelow(p: Pool, k: nat)
    requires Shaped(p) && k < MAX_FD
  {
    exists i :: 0 <= i < p.maxFd && i != k && p.fds[i].dev == p.fds[k].dev
  }

  ghost function Lock(p: Pool, k: nat): (Pool, Code)
    requires Shaped(p) && k < MAX_FD
  {
    if SharedBelow(p, k) then (p, Fail(EACCES))
    else (p.(fds := p.fds[k := p.fds[k].(flags := p.fds[k].flags.(excl := true))]), Ok(0))
  }

  function Unlock(p: Pool, k: nat): (Pool, Code)
    requires k < |p.fds|
  {
    (p.(fds := p.fds[k := p.fds[k].(flags := p.fds[k].flags.(excl := false))]), Ok(0))
  }

  datatype Request = TIOCEXCL | TIOCNXCL | Other(req: int)

  // `driver` is what the driver's ioctl() returns, if it has one.
  ghost function Ioctl(p: Pool, file: int, req: Request, driver: Option<int>): (Pool, Code)
    requires Shaped(p) && Callable(p, file)
  {
    if file < 0 then (p, Fail(EBADFD))
    else if p.fds[file].flags.dev && req == TIOCEXCL then Lock(p, file)
    else if p.fds[file].flags.dev && req == TIOCNXCL then Unlock(p, file)
    else (p, if driver.Some? then DriverCode(driver.value) else Fail(ENOTTY))
  }

  datatype Command = GetFl | SetFl(arg: bv32) | OtherCmd

  // The flags F_GETFL returns are Ok's value read as a word.
  datatype FcntlCode = Flagged(flags: bv32) | Done | Failed(errno: Errno)

  function Fcntl(p: Pool, file: int, cmd: Command): (Pool, FcntlCode)
    requires Callable(p, file)
  {
    if file < 0 then (p, Failed(EBADFD))
    else
      var flags := p.fds[file].flags;
      match cmd
      case GetFl => (p, Flagged(flags.user))
      case SetFl(arg) =>
        (p.(fds := p.fds[file := p.fds[file].(flags := flags.(user := WithStatus(flags.user, arg)))]), Done)
      case OtherCmd => (p, Failed(EINVAL))
  }

  // alt_open_fd: open, move the new descriptor into slot `to`, release it.
  ghost function OpenInto(p: Pool, to: nat, req: OpenReq): (r: Pool)
    requires Shaped(p) && to < 3
    ensures Shaped(r)
  {
    var (q, rc) := Open(p, req);
    if rc.Ok? then Release(q.(fds := q.fds[to := q.fds[rc.value]]), rc.value)
    else q
  }

  // ---------- Runs ----------

  datatype Op =
    | OpOpen(req: OpenReq)
    | OpClose(file: int, rval: int)
    | OpIoctl(file: int, request: Request, driver: Option<int>)
    | OpFcntl(file: int, cmd: Command)
    | OpOpenInto(to: nat, req: OpenReq)

  ghost predicate Legal(p: Pool, op: Op) {
    match op
    case OpOpen(_) => true
    case OpClose(file, _) => Callable(p, file)
    case OpIoctl(file, _, _) => Callable(p, file)
    case OpFcntl(file, _) => Callable(p, file)
    case OpOpenInto(to, _) => to < 3
  }

  ghost function Step(p: Pool, op: Op): (q: Pool)
    requires Shaped(p) && Legal(p, op)
    ensures Shaped(q)
  {
    match op
    case OpOpen(req) => Open(p, req).0
    case OpClose(file, rval) => Close(p, file, rval).0
    case OpIoctl(file, request, driver) => Ioctl(p, file, request, driver).0
    case OpFcntl(file, cmd) => Fcntl(p, file, cmd).0
    case OpOpenInto(to, req) => OpenInto(p, to, req)
  }

  // The pools met from p on, p first, when each call is legal where it is made.
  ghost predicate Trace(ps: seq<Pool>, ops: seq<Op>) {
    && |ps| == |ops| + 1
    && (forall k :: 0 <= k < |ps| ==> Shaped(ps[k]))
    && forall k :: 0 <= k < |ops| ==> Legal(ps[k], ops[k]) && ps[k + 1] == Step(ps[k], ops[k])
  }

  ghost predicate Reachable(p: Pool) {
    exists ps: seq<Pool>, ops: seq<Op> :: Trace(ps, ops) && ps[0] == Boot() && ps[|ops|] == p
  }
}
