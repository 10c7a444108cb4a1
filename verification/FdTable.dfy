/** The file-descriptor table of the FatFs syscalls. */
module FdTable {

  const FD_BASE: int := 3
  const FD_MAX: nat := 16
  const FD_END: int := 19

  const ENOENT: int := 2
  const EIO: int := 5
  const EBADF: int := 9
  const EACCES: int := 13
  const EBUSY: int := 16
  const EEXIST: int := 17
  const ENODEV: int := 19
  const EINVAL: int := 22
  const EMFILE: int := 24
  const EROFS: int := 30

  /** `FRESULT`; the codes `ff_to_errno` does not single out are in `Other`. */
  datatype FResult =
    | Ok | DiskErr | IntErr | NotReady | NoFile | NoPath | InvalidName | Denied | Exist
    | InvalidObject | WriteProtected | NotEnabled | NoFilesystem | TooManyOpenFiles | Other

  /** `ff_to_errno`. */
  function ToErrno(fr: FResult): int {
    match fr
    case Ok => 0
    case NoFile => ENOENT
    case NoPath => ENOENT
    case InvalidName => EINVAL
    case Exist => EEXIST
    case Denied => EACCES
    case NotReady => EBUSY
    case InvalidObject => EBADF
    case WriteProtected => EROFS
    case NotEnabled => ENODEV
    case NoFilesystem => ENODEV
    case TooManyOpenFiles => EMFILE
    case DiskErr => EIO
    case IntErr => EIO
    case Other => EIO
  }

  predicate ValidMode(oflag: int) {
    oflag % 4 != 3
  }

  predicate AppendBit(oflag: int) {
    (oflag / 8) % 2 == 1
  }

  /** The live descriptors with their append flags, the mount flag and `errno`. */
  datatype State = State(live: map<int, bool>, mounted: bool, errno: int)

  const BOOT: State := State(map[], false, 0)

  /** The descriptors of the first `n` entries. */
  function Fds(n: nat): (s: set<int>)
    ensures |s| == n
    ensures forall fd :: fd in s <==> FD_BASE <= fd < FD_BASE + n
  {
    if n == 0 then {} else Fds(n - 1) + {FD_BASE + n - 1}
  }

  predicate InTable(fd: int) {
    FD_BASE <= fd < FD_END
  }

  ghost predicate Valid(s: State) {
    forall fd :: fd in s.live ==> InTable(fd)
  }

  /** The lowest descriptor from `fd` on that is not live, `FD_END` if none. */
  function LowestFree(live: map<int, bool>, fd: int): (r: int)
    requires FD_BASE <= fd <= FD_END
    ensures fd <= r <= FD_END && (r !in live || r == FD_END)
    ensures forall g :: fd <= g < r ==> g in live
    decreases FD_END - fd
  {
    if fd == FD_END || fd !in live then fd else LowestFree(live, fd + 1)
  }

  lemma LowestIs(live: map<int, bool>, r: int)
    requires InTable(r) && r !in live && forall g :: FD_BASE <= g < r ==> g in live
    ensures LowestFree(live, FD_BASE) == r
  {
    hide LowestFree;
  }

  /** The part of `_open` after the flag checks: an entry is taken, and given back if `f_open` fails. */
  function OpenSlot(s: State, append: bool, open: FResult): (State, int) {
    var fd := LowestFree(s.live, FD_BASE);
    if fd == FD_END then (s.(errno := EMFILE), -1)
    else if open != Ok then (s.(errno := ToErrno(open)), -1)
    else (s.(live := s.live[fd := append]), fd)
  }

  /** `_open`, given what `f_mount` and `f_open` answer: the new state and the result. */
  function Open(s: State, oflag: int, mount: FResult, open: FResult): (State, int) {
    if !s.mounted && mount != Ok then (s.(errno := EIO), -1)
    else
      var m := s.(mounted := true);
      if !ValidMode(oflag) then (m.(errno := EINVAL), -1)
      else OpenSlot(m, AppendBit(oflag), open)
  }

  /** `_close`, given what `f_close` answers. */
  function Close(s: State, fd: int, close: FResult): (State, int) {
    if 0 <= fd <= 2 then (s, 0)
    else if fd !in s.live then (s.(errno := EBADF), -1)
    else
      var t := s.(live := s.live - {fd});
      if close != Ok then (t.(errno := ToErrno(close)), -1) else (t, 0)
  }

  /**
   A successful open returns the lowest free descriptor and changes that one
   alone; a failed one leaves the live set as it was.
   */
  lemma OpenTakesLowest(s: State, oflag: int, mount: FResult, open: FResult)
    requires Valid(s)
    ensures var (t, fd) := Open(s, oflag, mount, open);
      && Valid(t)
      && (fd == -1 ==> t.live == s.live && t.errno != 0)
      && (fd != -1 ==> InTable(fd) && fd !in s.live && (forall g :: FD_BASE <= g < fd ==> g in s.live)
                       && t.live == s.live[fd := AppendBit(oflag)] && t.errno == s.errno)
      && (fd != -1 <==> (s.mounted || mount == Ok) && ValidMode(oflag) && |s.live| != FD_MAX && open == Ok)
  {
    hide LowestFree, ValidMode, AppendBit;
    FullExactly(s);
  }

  /**
   EMFILE comes with 16 live descriptors, or from `f_open` itself, which answers
   so only when file locking is compiled in.
   */
  lemma EmfileExactly(s: State, oflag: int, mount: FResult, open: FResult)
    requires Valid(s)
    ensures var (t, fd) := Open(s, oflag, mount, open);
      fd == -1 && t.errno == EMFILE <==>
        (s.mounted || mount == Ok) && ValidMode(oflag) && (|s.live| == FD_MAX || open == TooManyOpenFiles)
  {
    hide LowestFree, ValidMode, AppendBit, ToErrno;
    FullExactly(s);
    ErrnoOfMany(open);
  }

  lemma ErrnoOfMany(open: FResult)
    ensures ToErrno(open) == EMFILE <==> open == TooManyOpenFiles
  {
  }

  /** As long as FatFs does not say so, EMFILE means exactly that all 16 descriptors are live. */
  lemma EmfileMeansFull(s: State, oflag: int, mount: FResult, open: FResult)
    requires Valid(s) && open != TooManyOpenFiles
    ensures var (t, fd) := Open(s, oflag, mount, open);
      fd == -1 && t.errno == EMFILE <==> (s.mounted || mount == Ok) && ValidMode(oflag) && |s.live| == FD_MAX
  {
    hide Open;
    EmfileExactly(s, oflag, mount, open);
  }

  /** The error numbers that FatFs answers turn into. */
  lemma ErrnoByValue(fr: FResult)
    ensures ToErrno(fr) ==
      match fr
      case Ok => 0
      case NoFile => 2
      case NoPath => 2
      case DiskErr => 5
      case IntErr => 5
      case Other => 5
      case InvalidObject => 9
      case Denied => 13
      case NotReady => 16
      case Exist => 17
      case NotEnabled => 19
      case NoFilesystem => 19
      case InvalidName => 22
      case TooManyOpenFiles => 24
      case WriteProtected => 30
  {
  }

  /** Why an open fails, and with what error: each cause counts only if none before it does. */
  lemma OpenErrors(s: State, oflag: int, mount: FResult, open: FResult)
    requires Valid(s)
    ensures var (t, fd) := Open(s, oflag, mount, open);
      && t.mounted == (s.mounted || mount == Ok)
      && (!t.mounted ==> fd == -1 && t.errno == 5)
      && (t.mounted && oflag % 4 == 3 ==> fd == -1 && t.errno == 22)
      && (t.mounted && oflag % 4 != 3 && |s.live| == 16 ==> fd == -1 && t.errno == 24)
      && (t.mounted && oflag % 4 != 3 && |s.live| != 16 ==>
            if open == Ok then 3 <= fd < 19 && t.errno == s.errno else fd == -1 && t.errno == ToErrno(open))
  {
    hide LowestFree, AppendBit, ToErrno;
    FullExactly(s);
  }

  /**
   The flags by bits: 0, 1 and 2 (read, write, both) are the access modes, 3 is none,
   and bit 3 asks for appending; the other bits, `low` and `high`, change neither.
   */
  lemma FlagBits(mode: nat, low: nat, append: bool, high: int)
    requires mode < 4 && low < 2
    ensures var oflag := mode + 4 * low + (if append then 8 else 0) + 16 * high;
      && (ValidMode(oflag) <==> mode == 0 || mode == 1 || mode == 2)
      && (AppendBit(oflag) <==> append)
  {
    var bit := if append then 1 else 0;
    var oflag := mode + 4 * low + 8 * bit + 16 * high;
    assert oflag == 4 * (low + 2 * bit + 4 * high) + mode;
    LowBits(low + 2 * bit + 4 * high, mode);
    assert oflag == 8 * (bit + 2 * high) + (mode + 4 * low);
    HighBits(bit + 2 * high, mode + 4 * low);
    assert (bit + 2 * high) % 2 == bit;
  }

  /** An open with given flag bits, once the volume mounts and `f_open` agrees. */
  lemma OpenByFlags(s: State, mode: nat, low: nat, append: bool, high: int)
    requires Valid(s) && mode < 4 && low < 2
    ensures var oflag := mode + 4 * low + (if append then 8 else 0) + 16 * high;
      var (t, fd) := Open(s, oflag, Ok, Ok);
      && (mode == 3 ==> fd == -1 && t.errno == 22 && t.live == s.live)
      && (mode != 3 && |s.live| != 16 ==> 3 <= fd < 19 && fd !in s.live && t.live == s.live[fd := append])
      && (mode != 3 && |s.live| == 16 ==> fd == -1 && t.errno == 24 && t.live == s.live)
  {
    hide Open, ValidMode, AppendBit;
    var oflag := mode + 4 * low + (if append then 8 else 0) + 16 * high;
    FlagBits(mode, low, append, high);
    OpenTakesLowest(s, oflag, Ok, Ok);
    OpenErrors(s, oflag, Ok, Ok);
    ModeOf(oflag);
  }

  lemma ModeOf(oflag: int)
    ensures ValidMode(oflag) <==> oflag % 4 != 3
  {
  }

  lemma LowBits(k: int, m: nat)
    requires m < 4
    ensures (4 * k + m) % 4 == m
  {
  }

  lemma HighBits(k: int, m: nat)
    requires m < 8
    ensures (8 * k + m) / 8 == k
  {
  }

  /** What a close answers: success exactly for 0, 1, 2 and for a live descriptor that `f_close` accepts. */
  lemma CloseAnswers(s: State, fd: int, close: FResult)
    ensures var (t, r) := Close(s, fd, close);
      && (r == 0 <==> 0 <= fd <= 2 || (fd in s.live && close == Ok))
      && (r == 0 || r == -1)
      && (r == 0 ==> t.errno == s.errno)
      && (r == -1 && fd in s.live ==> t.errno == ToErrno(close))
      && (r == -1 && fd !in s.live ==> t == s.(errno := 9))
      && (0 <= fd <= 2 ==> t == s)
      && (!(0 <= fd <= 2) ==> t.live == s.live - {fd} && t.mounted == s.mounted)
  {
    hide ToErrno;
    if fd !in s.live { assert s.live - {fd} == s.live; }
  }

  lemma FullExactly(s: State)
    requires Valid(s)
    ensures |s.live| <= FD_MAX
    ensures |s.live| == FD_MAX <==> LowestFree(s.live, FD_BASE) == FD_END
  {
    hide Fds, LowestFree;
    var all := Fds(FD_MAX);
    assert s.live.Keys <= all;
    assert all == s.live.Keys + (all - s.live.Keys);
    var fd := LowestFree(s.live, FD_BASE);
    if fd == FD_END {
      assert all - s.live.Keys == {};
    } else {
      assert fd in all - s.live.Keys;
    }
  }

  // ---------------------------------------------------------------------------
  // Any run of opens and closes

  datatype Op = DoOpen(oflag: int, mount: FResult, open: FResult) | DoClose(fd: int, close: FResult)

  function Perform(s: State, op: Op): (State, int) {
    match op
    case DoOpen(oflag, mount, open) => Open(s, oflag, mount, open)
    case DoClose(fd, close) => Close(s, fd, close)
  }

  function Run(ops: seq<Op>): State {
    if ops == [] then BOOT else Perform(Run(ops[..|ops| - 1]), ops[|ops| - 1]).0
  }

  /** The open at index `i` of the run returned `fd`. */
  predicate OpenedAt(ops: seq<Op>, i: nat, fd: int) {
    i < |ops| && ops[i].DoOpen? && Perform(Run(ops[..i]), ops[i]).1 == fd
  }

  predicate ClosedAfter(ops: seq<Op>, i: nat, fd: int) {
    exists j :: i < j < |ops| && ops[j].DoClose? && ops[j].fd == fd
  }

  /** The open at index `i` gave `fd`, and nothing has closed it since. */
  ghost predicate OpenSince(ops: seq<Op>, i: nat, fd: int) {
    OpenedAt(ops, i, fd) && !ClosedAfter(ops, i, fd)
  }

  lemma OpenSinceAppend(ops: seq<Op>, op: Op, i: nat, fd: int)
    requires i < |ops|
    ensures OpenSince(ops + [op], i, fd) <==> OpenSince(ops, i, fd) && !(op.DoClose? && op.fd == fd)
  {
    var all := ops + [op];
    assert all[..i] == ops[..i];
    if ClosedAfter(ops, i, fd) {
      var j :| i < j < |ops| && ops[j].DoClose? && ops[j].fd == fd;
      assert all[j] == ops[j];
    }
    if op.DoClose? && op.fd == fd {
      assert all[|ops|] == op;
    }
  }

  lemma OpenedAtEnd(ops: seq<Op>, op: Op, fd: int)
    ensures Run(ops + [op]) == Perform(Run(ops), op).0
    ensures OpenSince(ops + [op], |ops|, fd) <==> op.DoOpen? && Perform(Run(ops), op).1 == fd
  {
    assert (ops + [op])[..|ops|] == ops;
  }

  lemma {:induction false} RunValid(ops: seq<Op>)
    ensures Valid(Run(ops)) && |Run(ops).live| <= FD_MAX
  {
    if ops != [] {
      var s, op := Run(ops[..|ops| - 1]), ops[|ops| - 1];
      RunValid(ops[..|ops| - 1]);
      if op.DoOpen? { OpenTakesLowest(s, op.oflag, op.mount, op.open); }
    }
    FullExactly(Run(ops));
  }

  /** How one operation changes the entry of `fd`. */
  lemma PerformEffect(s: State, op: Op, fd: int)
    requires Valid(s) && InTable(fd)
    ensures var (t, r) := Perform(s, op);
      if op.DoOpen? && r == fd then fd in t.live && t.live[fd] == AppendBit(op.oflag)
      else if op.DoClose? && op.fd == fd then fd !in t.live
      else (fd in t.live <==> fd in s.live) && (fd in s.live ==> t.live[fd] == s.live[fd])
  {
    if op.DoOpen? { OpenTakesLowest(s, op.oflag, op.mount, op.open); }
  }

  /**
   After any run a descriptor is live exactly when some open gave it and no
   close of it came later, failed closes included; and its append flag is the
   `O_APPEND` bit of that open.
   */
  lemma {:induction false} LiveIsOpenSince(ops: seq<Op>, fd: int)
    requires InTable(fd)
    ensures fd in Run(ops).live ==>
              exists i: nat :: OpenSince(ops, i, fd) && Run(ops).live[fd] == AppendBit(ops[i].oflag)
    ensures (exists i: nat :: OpenSince(ops, i, fd)) ==> fd in Run(ops).live
  {
    if ops != [] {
      hide Perform, Run, OpenSince;
      var front, op := ops[..|ops| - 1], ops[|ops| - 1];
      assert ops == front + [op];
      LiveIsOpenSince(front, fd);
      RunValid(front);
      OpenedAtEnd(front, op, fd);
      PerformEffect(Run(front), op, fd);
      if fd in Run(ops).live && !OpenSince(ops, |front|, fd) {
        var i: nat :| OpenSince(front, i, fd) && Run(front).live[fd] == AppendBit(front[i].oflag);
        OpenSinceInside(front, i, fd);
        OpenSinceAppend(front, op, i, fd);
        assert ops[i] == front[i];
      }
      if i: nat :| OpenSince(ops, i, fd) {
        OpenSinceInside(ops, i, fd);
        if i < |front| {
          OpenSinceAppend(front, op, i, fd);
        }
      }
    }
  }

  /** A descriptor that was closed, and that no open has given since, cannot be closed again. */
  lemma SecondCloseFails(ops: seq<Op>, fd: int, first: FResult, between: seq<Op>, second: FResult)
    requires !(0 <= fd <= 2)
    requires var all := ops + [DoClose(fd, first)] + between;
      forall i :: |ops| < i < |all| ==> !OpenedAt(all, i, fd)
    ensures var s := Run(ops + [DoClose(fd, first)] + between);
      Close(s, fd, second) == (s.(errno := 9), -1)
  {
    hide Run, OpenedAt, Perform;
    var all := ops + [DoClose(fd, first)] + between;
    var s := Run(all);
    RunValid(all);
    if fd in s.live {
      LiveIsOpenSince(all, fd);
      var i: nat :| OpenSince(all, i, fd);
      OpenSinceInside(all, i, fd);
      assert all[|ops|] == DoClose(fd, first);
      OpenedIsOpen(all, i, fd);
    }
  }

  lemma OpenedIsOpen(ops: seq<Op>, i: nat, fd: int)
    requires OpenedAt(ops, i, fd)
    ensures i < |ops| && ops[i].DoOpen?
  {
  }

  lemma OpenSinceInside(ops: seq<Op>, i: nat, fd: int)
    requires OpenSince(ops, i, fd)
    ensures i < |ops|
  {
  }

  // ---------------------------------------------------------------------------
  // The table

  datatype Entry = Entry(used: bool, append: bool)

  const FREE: Entry := Entry(false, false)

  function LiveEntries(table: seq<Entry>): map<int, bool>
    requires |table| == FD_MAX
  {
    map fd | fd in Fds(FD_MAX) && table[fd - FD_BASE].used :: table[fd - FD_BASE].append
  }

  lemma SetEntry(table: seq<Entry>, i: nat, e: Entry)
    requires |table| == FD_MAX && i < FD_MAX
    ensures LiveEntries(table[i := e])
         == if e.used then LiveEntries(table)[FD_BASE + i := e.append] else LiveEntries(table) - {FD_BASE + i}
  {
    hide Fds;
  }

  lemma LiveExactly(table: seq<Entry>)
    requires |table| == FD_MAX
    ensures forall fd :: fd in LiveEntries(table) <==> InTable(fd) && table[fd - FD_BASE].used
  {
    hide Fds;
  }

  class Table {
    const fds: array<Entry>
    var mounted: bool
    var errno: int

    ghost predicate Ready()
      reads this
    {
      fds.Length == FD_MAX
    }

    ghost function View(): State
      reads this, fds
      requires Ready()
    {
      State(LiveEntries(fds[..]), mounted, errno)
    }

    constructor ()
      ensures Ready() && fresh(fds) && View() == BOOT
    {
      fds := new Entry[FD_MAX](_ => FREE);
      mounted, errno := false, 0;
      new;
      hide Fds;
      assert LiveEntries(fds[..]) == map[];
    }

    method EnsureMounted(mount: FResult) returns (r: int)
      requires Ready()
      modifies this
      ensures r == (if old(mounted) || mount == Ok then 0 else -1)
      ensures View() == if r == 0 then old(View()).(mounted := true) else old(View()).(errno := EIO)
    {
      if mounted { return 0; }
      if mount == Ok {
        mounted := true;
        return 0;
      }
      errno := EIO;
      return -1;
    }

    method Alloc() returns (fd: int)
      requires Ready()
      modifies this`errno, fds
      ensures var free := LowestFree(old(View()).live, FD_BASE);
        if free == FD_END then fd == -1 && View() == old(View()).(errno := EMFILE)
        else fd == free && View() == old(View()).(live := old(View()).live[fd := false])
    {
      hide Fds, LowestFree, LiveEntries;
      LiveExactly(fds[..]);
      for i := 0 to FD_MAX
        invariant forall k :: 0 <= k < i ==> fds[..][k].used
        invariant View() == old(View()) && fds[..] == old(fds[..])
      {
        if !fds[i].used {
          forall fd | FD_BASE <= fd < FD_BASE + i
            ensures fd in View().live
          {
            assert fds[..][fd - FD_BASE].used;
          }
          LowestIs(View().live, FD_BASE + i);
          SetEntry(fds[..], i, Entry(true, false));
          fds[i] := Entry(true, false);
          assert fds[..] == old(fds[..])[i := Entry(true, false)];
          return FD_BASE + i;
        }
      }
      errno := EMFILE;
      return -1;
    }

    /** `fd_get`: whether `fd` is a live entry. */
    method Get(fd: int) returns (found: bool)
      requires Ready()
      ensures found <==> fd in View().live
    {
      hide Fds, LiveEntries;
      LiveExactly(fds[..]);
      var idx := fd - FD_BASE;
      if idx < 0 || idx >= FD_MAX { return false; }
      return fds[idx].used;
    }

    method Free(fd: int)
      requires Ready()
      modifies fds
      ensures View() == old(View()).(live := old(View()).live - {fd})
    {
      hide Fds;
      var idx := fd - FD_BASE;
      if 0 <= idx < FD_MAX {
        SetEntry(fds[..], idx, FREE);
        fds[idx] := FREE;
        assert fds[..] == old(fds[..])[idx := FREE];
      } else {
        assert View().live - {fd} == View().live;
      }
    }

    /** `e->append = append` for the entry of a live descriptor. */
    method SetAppend(fd: int, append: bool)
      requires Ready() && fd in View().live
      modifies fds
      ensures View() == old(View()).(live := old(View()).live[fd := append])
    {
      hide Fds, LiveEntries;
      LiveExactly(fds[..]);
      var e := fds[fd - FD_BASE].(append := append);
      SetEntry(fds[..], fd - FD_BASE, e);
      fds[fd - FD_BASE] := e;
      assert fds[..] == old(fds[..])[fd - FD_BASE := e];
    }

    method TakeSlot(append: bool, open: FResult) returns (r: int)
      requires Ready()
      modifies this`errno, fds
      ensures (View(), r) == OpenSlot(old(View()), append, open)
    {
      hide Fds, LowestFree, LiveEntries, ToErrno;
      ghost var live := View().live;
      var fd := Alloc();
      if fd < 0 { return -1; }
      if open != Ok {
        Free(fd);
        errno := ToErrno(open);
        assert live[fd := false] - {fd} == live;
        return -1;
      }
      SetAppend(fd, append);
      assert live[fd := false][fd := append] == live[fd := append];
      return fd;
    }

    method OpenFile(oflag: int, mount: FResult, open: FResult) returns (r: int)
      requires Ready()
      modifies this, fds
      ensures var o := Open(old(View()), oflag, mount, open);
        View() == o.0 && r == o.1
    {
      hide Fds, LowestFree, LiveEntries, OpenSlot, ValidMode, AppendBit;
      var m := EnsureMounted(mount);
      if m < 0 { return -1; }
      var append := false;
      if !ValidMode(oflag) {
        errno := EINVAL;
        return -1;
      }
      if AppendBit(oflag) { append := true; }
      r := TakeSlot(append, open);
    }

    method CloseFile(fd: int, close: FResult) returns (r: int)
      requires Ready()
      modifies this`errno, fds
      ensures var o := Close(old(View()), fd, close);
        View() == o.0 && r == o.1
      ensures r == if 0 <= fd <= 2 || (fd in old(View()).live && close == Ok) then 0 else -1
    {
      hide Fds, LiveEntries;
      LiveExactly(fds[..]);
      if fd == 0 || fd == 1 || fd == 2 { return 0; }
      var found := Get(fd);
      if !found {
        errno := EBADF;
        return -1;
      }
      Free(fd);
      if close != Ok {
        errno := ToErrno(close);
        return -1;
      }
      return 0;
    }
  }
}
