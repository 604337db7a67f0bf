/**
 * The VM table of kvm-pool.c: choosing a free console (VNC) id, claiming a
 * slot and forking a spare VM, provisioning spare VMs up to the configured
 * minimum, and building the argument vector a spare VM is started with.
 * `fork()` is a parameter: each call's outcome as the parent sees it.
 */
module Pool {
  import opened Wrappers
  import Text
  import Expand
  import Settings

  const KVM: string := "kvm"
  const MAXARGUMENTS := Settings.MAXARGUMENTS

  /** `vm_t` (ctx.h:83-89). */
  datatype Vm = Vm(pid: int, vncId: int, vncFd: int, clientFd: int)

  type ChildPid = x: int | x > 0 witness 1
  type Errno = x: int | x > 0 witness 1

  /** What `fork()` returns in the parent: the child's pid, or -1 with `errno` set. */
  datatype Fork = Spawned(pid: ChildPid) | ForkFailed(errno: Errno)

  /** The value `fork()` returns, as stored into `vm->pid` (kvm-pool.c:136). */
  function ForkPid(f: Fork): int {
    match f
    case Spawned(pid) => pid
    case ForkFailed(_) => -1
  }

  // ---------------------------------------------------------------------
  // Console ids.

  /** Some slot of `t` holds console id `id`. */
  predicate Used(t: seq<Vm>, id: int) {
    exists i :: 0 <= i < |t| && t[i].vncId == id
  }

  /** The table's ids are distinct and lie in `[0, max)`. */
  predicate IdsOk(t: seq<Vm>, max: int) {
    && (forall i :: 0 <= i < |t| ==> 0 <= t[i].vncId < max)
    && (forall i, j :: 0 <= i < j < |t| ==> t[i].vncId != t[j].vncId)
  }

  /** The least id in `[k, max)` no slot of `t` uses. */
  function LeastFreeFrom(t: seq<Vm>, max: int, k: nat): (r: Option<nat>)
    ensures r.Some? ==> k <= r.value < max && !Used(t, r.value) && forall j :: k <= j < r.value ==> Used(t, j)
    ensures r.None? ==> forall j :: k <= j < max ==> Used(t, j)
    decreases max - k
  {
    if k >= max then None
    else if !Used(t, k) then Some(k)
    else LeastFreeFrom(t, max, k + 1)
  }

  function LeastFree(t: seq<Vm>, max: int): Option<nat> {
    LeastFreeFrom(t, max, 0)
  }

  function IdSet(t: seq<Vm>): set<int> {
    set i | 0 <= i < |t| :: t[i].vncId
  }

  lemma {:induction false} IdSetSize(t: seq<Vm>)
    ensures |IdSet(t)| <= |t|
    ensures (forall i, j :: 0 <= i < j < |t| ==> t[i].vncId != t[j].vncId) ==> |IdSet(t)| == |t|
    decreases |t|
  {
    if t != [] {
      var u := t[..|t| - 1];
      IdSetSize(u);
      IdSetSnoc(t);
      if forall i, j :: 0 <= i < j < |t| ==> t[i].vncId != t[j].vncId {
        LastIdFresh(t);
      }
    }
  }

  /** The ids of a non-empty table are those of all but its last slot, plus the last slot's. */
  lemma IdSetSnoc(t: seq<Vm>)
    requires t != []
    ensures IdSet(t) == IdSet(t[..|t| - 1]) + {t[|t| - 1].vncId}
  {
    var u := t[..|t| - 1];
    forall x | x in IdSet(t) ensures x in IdSet(u) + {t[|t| - 1].vncId} {
      var i :| 0 <= i < |t| && t[i].vncId == x;
      if i < |t| - 1 { assert u[i] == t[i]; }
    }
    forall x | x in IdSet(u) ensures x in IdSet(t) {
      var i :| 0 <= i < |u| && u[i].vncId == x;
      assert t[i] == u[i];
    }
  }

  /** In a table of distinct ids, the last id is not among the others. */
  lemma LastIdFresh(t: seq<Vm>)
    requires t != [] && forall i, j :: 0 <= i < j < |t| ==> t[i].vncId != t[j].vncId
    ensures t[|t| - 1].vncId !in IdSet(t[..|t| - 1])
  {
    var u := t[..|t| - 1];
    forall i | 0 <= i < |u| ensures u[i].vncId != t[|t| - 1].vncId {
      assert u[i] == t[i];
    }
  }

  /** The ids `0 .. n-1`. */
  function Below(n: nat): (r: set<int>)
    ensures |r| == n && forall j :: j in r <==> 0 <= j < n
  {
    if n == 0 then {} else Below(n - 1) + {n - 1}
  }

  lemma SubsetSize(a: set<int>, b: set<int>)
    requires a <= b
    ensures |a| <= |b|
  {
    assert b == a + (b - a);
    assert a * (b - a) == {};
  }

  /**
   * With distinct ids in range (the invariant `runspare` keeps), no id is
   * free exactly when the table already holds `max` slots: `critical_on` at
   * kvm-pool.c:70 fires only on a full table, and is the only guard before
   * the write at kvm-pool.c:132.
   */
  lemma NoFreeIdIffFull(t: seq<Vm>, max: int)
    requires IdsOk(t, max)
    ensures LeastFree(t, max).None? <==> |t| >= max
  {
    IdSetSize(t);
    if max > 0 {
      var range := Below(max);
      if LeastFree(t, max).None? {
        assert range <= IdSet(t) by {
          forall j | j in range ensures j in IdSet(t) {
            assert Used(t, j);
            var i :| 0 <= i < |t| && t[i].vncId == j;
          }
        }
        SubsetSize(range, IdSet(t));
      } else {
        var f := LeastFree(t, max).value;
        var rest := range - {f};
        assert range == rest + {f};
        assert IdSet(t) <= rest;
        SubsetSize(IdSet(t), rest);
      }
    }
  }

  // ---------------------------------------------------------------------
  // The table size (kvm-pool.c:166).

  /** `sizeof(vm_t)`: four 32-bit ints. */
  const VM_SIZE: nat := 16
  /** `sizeof(ctx_p->vms)`, a pointer on an LP64 system. */
  const POINTER_SIZE: nat := 8

  /** Bytes kvm-pool.c:166 allocates for a table of `vmsMax` slots, as written. */
  function TableBytesAsWritten(vmsMax: nat): nat {
    vmsMax * POINTER_SIZE
  }

  /** Bytes a table of `vmsMax` slots needs: `vmsMax * sizeof(vm_t)`. */
  function TableBytes(vmsMax: nat): nat {
    vmsMax * VM_SIZE
  }

  /** The end, in bytes, of slot `i`. */
  function SlotEnd(i: nat): nat {
    (i + 1) * VM_SIZE
  }

  /** As written, every slot from index `vmsMax / 2` on lies past the end of the allocation. */
  lemma AsWrittenTableTooSmall(vmsMax: nat, i: nat)
    requires vmsMax / 2 <= i < vmsMax
    ensures SlotEnd(i) > TableBytesAsWritten(vmsMax)
  {
    assert 2 * (i + 1) > vmsMax;
  }

  /** Sized by `vm_t`, every slot `newvncid` can hand out lies inside the allocation. */
  lemma CorrectedSlotFits(vmsMax: nat, i: nat)
    requires i < vmsMax
    ensures SlotEnd(i) <= TableBytes(vmsMax)
  {
  }

  // ---------------------------------------------------------------------
  // The argument vector of a spare VM.

  function Somes(s: seq<string>): (r: seq<Option<string>>)
    ensures |r| == |s| && forall i :: 0 <= i < |s| ==> r[i] == Some(s[i])
  {
    seq(|s|, i requires 0 <= i < |s| => Some(s[i]))
  }

  /** The argument `-vnc` is given: `:` and the decimal console id. */
  function Display(vncId: nat): string {
    ":" + Text.Decimal(vncId)
  }

  /** One template argument as `getargv` passes it on: verbatim when marked expanded, else expanded against `env`. */
  function Entry(arg: string, isExpanded: bool, env: Expand.Env): string {
    if isExpanded then arg else Expand.Value(arg, env)
  }

  /**
   * The vector `getargv` builds, without its NULL terminator: `kvm -vnc :<id>`,
   * then each template argument as Entry passes it on.
   */
  function Argv(args: seq<string>, marks: seq<bool>, vncId: nat, env: Expand.Env): (r: seq<string>)
    requires |marks| >= |args|
    ensures |r| == 3 + |args| && r[..3] == [KVM, "-vnc", Display(vncId)]
  {
    [KVM, "-vnc", Display(vncId)] + seq(|args|, s requires 0 <= s < |args| => Entry(args[s], marks[s], env))
  }

  lemma ArgvShape(args: seq<string>, marks: seq<bool>, vncId: nat, env: Expand.Env)
    requires |marks| >= |args|
    ensures var r := Argv(args, marks, vncId, env);
      && |r| == 3 + |args|
      && r[0] == KVM && r[1] == "-vnc" && r[2] == Display(vncId)
      && forall s :: 0 <= s < |args| ==>
           r[3 + s] == (if marks[s] then args[s] else Expand.Value(args[s], env))
  {
  }

  /** The console id can be read back from the `-vnc` argument. */
  lemma DisplayRoundTrip(vncId: nat)
    ensures var d := Display(vncId);
      |d| >= 2 && d[0] == ':' && Text.IsDigits(d[1..]) && Text.ValueOf(d[1..]) == vncId
  {
    assert Display(vncId)[1..] == Text.Decimal(vncId);
    Text.DecimalRoundTrip(vncId);
  }

  /** VMs with distinct console ids are started on distinct displays. */
  lemma DisplaysDistinct(a: nat, b: nat)
    requires a != b
    ensures Display(a) != Display(b)
  {
    if Display(a) == Display(b) {
      assert Display(a)[1..] == Text.Decimal(a);
      assert Display(b)[1..] == Text.Decimal(b);
      Text.DecimalInjective(a, b);
    }
  }

  /**
   * `getargv` (kvm-pool.c:75-125): fills a zeroed array of MAXARGUMENTS+2
   * pointers through a running index. Since `kvm_arg` keeps `c` at most
   * MAXARGUMENTS-2, the 3 + c entries and the NULL after them stay in bounds.
   */
  method GetArgv(args: Settings.KvmArgs, vncId: nat, resolve: string -> Option<string>, pid: nat)
    returns (argv: array<Option<string>>)
    requires args.Valid()
    ensures fresh(argv) && argv.Length == MAXARGUMENTS + 2
    ensures argv[..] == Somes(Argv(args.Args(), args.isExpanded[..], vncId, Expand.Env(0, resolve, pid))) +
                        seq(MAXARGUMENTS + 2 - (3 + args.c), _ => None)
  {
    var env := Expand.Env(0, resolve, pid);
    argv := new Option<string>[MAXARGUMENTS + 2](_ => None);
    var d := 0;
    argv[d] := Some(KVM);
    d := d + 1;
    argv[d] := Some("-vnc");
    d := d + 1;
    argv[d] := Some(":" + Text.Decimal(vncId));
    d := d + 1;
    assert argv[..3] == [Some(KVM), Some("-vnc"), Some(":" + Text.Decimal(vncId))];
    assert NoneFrom(argv[..], d);
    d := CopyTemplate(argv, d, args, env);
    ghost var copied := argv[..];
    argv[d] := None;
    assert argv[..] == copied[d := None];
    CopiedKept(copied, 3, args.Args(), args.isExpanded[..], env, d, None);
    ArgvWritten(argv, args, vncId, env);
  }

  /** Entries `d0 ..` of `a` hold the template arguments as `getargv` passes them on. */
  ghost predicate Copied(a: seq<Option<string>>, d0: nat, values: seq<string>, marks: seq<bool>, env: Expand.Env) {
    && d0 + |values| <= |a| && |values| <= |marks|
    && forall j :: 0 <= j < |values| ==> a[d0 + j] == Some(Entry(values[j], marks[j], env))
  }

  /** A write past the copied entries keeps them. */
  lemma CopiedKept(a: seq<Option<string>>, d0: nat, values: seq<string>, marks: seq<bool>, env: Expand.Env,
                   k: nat, x: Option<string>)
    requires Copied(a, d0, values, marks, env) && d0 + |values| <= k < |a|
    ensures Copied(a[k := x], d0, values, marks, env)
  {
  }

  /** Every entry of `a` from index `k` on is NULL. */
  ghost predicate NoneFrom(a: seq<Option<string>>, k: nat) {
    forall j :: k <= j < |a| ==> a[j] == None
  }

  /** What GetArgv leaves in the array, restated on its contents. */
  lemma ArgvWritten(argv: array<Option<string>>, args: Settings.KvmArgs, vncId: nat, env: Expand.Env)
    requires args.Valid() && 3 + args.c <= argv.Length
    requires argv[..3] == [Some(KVM), Some("-vnc"), Some(":" + Text.Decimal(vncId))]
    requires Copied(argv[..], 3, args.Args(), args.isExpanded[..], env)
    requires NoneFrom(argv[..], 3 + args.c)
    ensures argv[..] == Somes(Argv(args.Args(), args.isExpanded[..], vncId, env)) + seq(argv.Length - (3 + args.c), _ => None)
  {
    ArgvFilled(argv[..], args.Args(), args.isExpanded[..], vncId, env);
  }

  /** The loop of kvm-pool.c:89-118: appends each template argument at the running index `d`. */
  method CopyTemplate(argv: array<Option<string>>, d0: nat, args: Settings.KvmArgs, env: Expand.Env) returns (d: nat)
    requires args.Valid() && argv != args.v && d0 + args.c < argv.Length
    modifies argv
    ensures d == d0 + args.c
    ensures forall j :: 0 <= j < d0 ==> argv[j] == old(argv[j])
    ensures argv[..d0] == old(argv[..d0])
    ensures Copied(argv[..], d0, args.Args(), args.isExpanded[..], env)
    ensures forall j :: d <= j < argv.Length ==> argv[j] == old(argv[j])
    ensures NoneFrom(old(argv[..]), d0) ==> NoneFrom(argv[..], d)
  {
    ghost var values := args.Args();
    d := d0;
    var s := 0;
    while s < args.c
      invariant 0 <= s <= args.c && d == d0 + s
      invariant forall j :: 0 <= j < d0 ==> argv[j] == old(argv[j])
      invariant forall j :: 0 <= j < s ==> argv[d0 + j] == Some(Entry(values[j], args.isExpanded[j], env))
      invariant forall j :: d <= j < argv.Length ==> argv[j] == old(argv[j])
    {
      assert args.v[s] == Some(values[s]);
      var x := ArgvEntry(args.v[s].value, args.isExpanded[s], env);
      argv[d] := Some(x);
      s := s + 1;
      d := d + 1;
    }
  }

  /** One template argument as `getargv` copies it (kvm-pool.c:90-117). */
  method ArgvEntry(arg: string, isExpanded: bool, env: Expand.Env) returns (x: string)
    ensures x == Entry(arg, isExpanded, env)
    ensures isExpanded ==> x == arg
    ensures !isExpanded ==> Expand.Expand(Expand.Guarded, arg, env).Done? && x == Expand.Expand(Expand.Guarded, arg, env).value
  {
    if isExpanded {
      return arg;
    }
    var o := Expand.ParameterExpand(Expand.Guarded, arg, env);
    ghost var w := Expand.Value(arg, env);
    x := o.value;
  }

  /** An array holding the Argv entries in order and None after them holds exactly Argv, NULL-padded. */
  lemma ArgvFilled(a: seq<Option<string>>, args: seq<string>, marks: seq<bool>, vncId: nat, env: Expand.Env)
    requires |marks| >= |args| && 3 + |args| <= |a|
    requires a[0] == Some(KVM) && a[1] == Some("-vnc") && a[2] == Some(Display(vncId))
    requires Copied(a, 3, args, marks, env)
    requires NoneFrom(a, 3 + |args|)
    ensures a == Somes(Argv(args, marks, vncId, env)) + seq(|a| - (3 + |args|), _ => None)
  {
    var target := Argv(args, marks, vncId, env);
    forall j | 0 <= j < |target|
      ensures a[j] == Some(target[j])
    {
      if j >= 3 {
        assert a[3 + (j - 3)] == Some(Entry(args[j - 3], marks[j - 3], env));
      }
    }
    Filled(a, target);
  }

  lemma Filled(a: seq<Option<string>>, target: seq<string>)
    requires |target| <= |a|
    requires forall j :: 0 <= j < |target| ==> a[j] == Some(target[j])
    requires forall j :: |target| <= j < |a| ==> a[j] == None
    ensures a == Somes(target) + seq(|a| - |target|, _ => None)
  {
  }

  // ---------------------------------------------------------------------
  // The pool.

  /**
   * Slot `i` of table `t` is what `kvmpool_runspare` writes for a fork with
   * outcome `fork`: the pid that fork returned, the least console id the
   * slots before it leave free, and zeroed descriptors.
   */
  ghost predicate NewSlot(t: seq<Vm>, i: nat, max: int, fork: Fork) {
    && i < |t|
    && t[i] == Vm(ForkPid(fork), t[i].vncId, 0, 0)
    && LeastFree(t[..i], max) == Some(t[i].vncId)
  }

  /** Slots `base` to `base + n - 1` of `t` are the ones written for `forks(0)` to `forks(n - 1)`. */
  ghost predicate NewSlots(t: seq<Vm>, base: nat, n: int, max: int, forks: nat -> Fork) {
    forall j :: 0 <= j < n ==> NewSlot(t, base + j, max, forks(j))
  }

  /** Claiming slot `base + k` leaves the slots claimed before it as they were. */
  lemma KeepsSlots(before: seq<Vm>, after: seq<Vm>, base: nat, k: nat, max: int, forks: nat -> Fork)
    requires base + k < |before| == |after|
    requires after == before[base + k := Vm(ForkPid(forks(k)), after[base + k].vncId, 0, 0)]
    requires LeastFree(before[..base + k], max) == Some(after[base + k].vncId)
    requires NewSlots(before, base, k, max, forks)
    ensures NewSlots(after, base, k + 1, max, forks)
  {
    forall j | 0 <= j < k + 1
      ensures NewSlot(after, base + j, max, forks(j))
    {
      assert after[..base + j] == before[..base + j];
      if j < k {
        assert NewSlot(before, base + j, max, forks(j));
      }
    }
  }

  /** The fields of `ctx_t` that kvm-pool.c works on. */
  class Pool {
    var vms: array?<Vm>
    var vmsCount: int
    var vmsSpareCount: int
    var vmsMax: int
    var vmsSpareMin: int

    ghost predicate Valid()
      reads this, vms
    {
      && 0 <= vmsCount && 0 <= vmsSpareCount
      && (vms != null ==> vms.Length == vmsMax && vmsCount <= vms.Length && IdsOk(vms[..vmsCount], vmsMax))
      && (vms != null && vmsCount > 0 ==> SlotEnd(vmsCount - 1) <= TableBytes(vms.Length))
    }

    /** A pool with no table yet, as in the zeroed context, with the configured bounds. */
    constructor (vmsMax: int, vmsSpareMin: int)
      ensures Valid() && vms == null && vmsCount == 0 && vmsSpareCount == 0
      ensures this.vmsMax == vmsMax && this.vmsSpareMin == vmsSpareMin
    {
      vms := null;
      vmsCount, vmsSpareCount := 0, 0;
      this.vmsMax, this.vmsSpareMin := vmsMax, vmsSpareMin;
    }

    /**
     * `newvncid` (kvm-pool.c:52-73): the least id below `vms_max` that no
     * claimed slot uses; None where `critical_on` aborts.
     */
    method NewVncId() returns (r: Option<nat>)
      requires Valid() && vms != null
      ensures r == LeastFree(vms[..vmsCount], vmsMax)
      ensures r.Some? ==> r.value < vmsMax && !Used(vms[..vmsCount], r.value) &&
                          forall j :: 0 <= j < r.value ==> Used(vms[..vmsCount], j)
      ensures r.None? <==> vmsCount >= vmsMax
    {
      ghost var t := vms[..vmsCount];
      NoFreeIdIffFull(t, vmsMax);
      var newId: nat := 0;
      while newId < vmsMax
        invariant LeastFreeFrom(t, vmsMax, newId) == LeastFree(t, vmsMax)
        decreases vmsMax - newId
      {
        var i := 0;
        while i < vmsCount
          invariant 0 <= i <= vmsCount
          invariant forall m :: 0 <= m < i ==> vms[m].vncId != newId
        {
          if vms[i].vncId == newId {
            break;
          }
          i := i + 1;
        }
        if i >= vmsCount {
          assert !Used(t, newId);
          break;
        }
        assert t[i].vncId == newId;
        newId := newId + 1;
      }
      if newId >= vmsMax {
        return None;
      }
      r := Some(newId);
    }

    /**
     * `kvmpool_runspare` in the parent (kvm-pool.c:128-149): claims slot
     * `vms_count` with the new console id and the pid `fork` returned, bumps
     * both counters, and returns `errno` if the fork failed, without undoing
     * the claim.
     */
    method RunSpare(fork: Fork) returns (status: Settings.Status)
      requires Valid() && vms != null
      modifies this, vms
      ensures Valid() && vms == old(vms) && vmsMax == old(vmsMax) && vmsSpareMin == old(vmsSpareMin)
      ensures status == Settings.Aborted <==> old(vmsCount) >= vmsMax
      ensures status == Settings.Aborted ==>
                vmsCount == old(vmsCount) && vmsSpareCount == old(vmsSpareCount) && vms[..] == old(vms[..])
      ensures status != Settings.Aborted ==>
                && vmsCount == old(vmsCount) + 1 && vmsSpareCount == old(vmsSpareCount) + 1
                && LeastFree(old(vms[..vmsCount]), vmsMax) == Some(vms[old(vmsCount)].vncId)
                && vms[..] == old(vms[..])[old(vmsCount) := Vm(ForkPid(fork), vms[old(vmsCount)].vncId, 0, 0)]
                && status == Settings.Returned(if fork.Spawned? then 0 else fork.errno)
    {
      var newId := NewVncId();
      if newId.None? {
        return Settings.Aborted;
      }
      ghost var t := vms[..vmsCount];
      var slot := vmsCount;
      vmsCount := vmsCount + 1;
      vmsSpareCount := vmsSpareCount + 1;
      vms[slot] := Vm(0, 0, 0, 0);
      vms[slot] := vms[slot].(vncId := newId.value);
      vms[slot] := vms[slot].(pid := ForkPid(fork));
      CorrectedSlotFits(vmsMax, slot);
      assert vms[..vmsCount] == t + [vms[slot]];
      assert IdsOk(vms[..vmsCount], vmsMax) by {
        forall i | 0 <= i < slot ensures vms[..vmsCount][i].vncId != newId.value {
          assert vms[..vmsCount][i] == t[i];
        }
      }
      match fork
      case ForkFailed(e) =>
        status := Settings.Returned(e);
      case Spawned(_) =>
        status := Settings.Returned(0);
    }

    /**
     * `kvmpool_prepare_spare_vms` (kvm-pool.c:151-161): starts spare VMs
     * until `vms_spare_min` is reached, the k-th fork of this call having
     * outcome `forks(k)`, and returns the first nonzero code at once.
     */
    method PrepareSpareVms(forks: nat -> Fork) returns (status: Settings.Status)
      requires Valid() && vms != null
      modifies this, vms
      ensures Valid() && vms == old(vms) && vmsMax == old(vmsMax) && vmsSpareMin == old(vmsSpareMin)
      ensures vmsSpareCount >= old(vmsSpareCount)
      ensures vmsCount - old(vmsCount) == vmsSpareCount - old(vmsSpareCount)
      ensures vms[..old(vmsCount)] == old(vms[..vmsCount])
      ensures NewSlots(vms[..], old(vmsCount), vmsCount - old(vmsCount), vmsMax, forks)
      ensures !status.Exited?
      ensures status == Settings.Returned(0) ==>
                vmsSpareCount == (if old(vmsSpareCount) >= vmsSpareMin then old(vmsSpareCount) else vmsSpareMin)
      ensures status.Returned? && status.rc != 0 ==>
                var n := vmsSpareCount - old(vmsSpareCount);
                n > 0 && forks(n - 1).ForkFailed? && forks(n - 1).errno == status.rc && forall k :: 0 <= k < n - 1 ==> forks(k).Spawned?
      ensures status == Settings.Aborted ==> vmsCount >= vmsMax && vmsSpareCount < vmsSpareMin
      ensures ((forall k :: 0 <= k < vmsSpareMin - old(vmsSpareCount) ==> forks(k).Spawned?) &&
               vmsSpareMin - old(vmsSpareCount) <= vmsMax - old(vmsCount)) ==> status == Settings.Returned(0)
    {
      var k: nat := 0;
      while vmsSpareMin > vmsSpareCount
        invariant Valid() && vms == old(vms) && vmsMax == old(vmsMax) && vmsSpareMin == old(vmsSpareMin)
        invariant vmsSpareCount == old(vmsSpareCount) + k && vmsCount == old(vmsCount) + k
        invariant k > 0 ==> vmsSpareCount <= vmsSpareMin
        invariant vms[..old(vmsCount)] == old(vms[..vmsCount])
        invariant NewSlots(vms[..], old(vmsCount), k, vmsMax, forks)
        invariant forall j :: 0 <= j < k ==> forks(j).Spawned?
        decreases vmsSpareMin - vmsSpareCount
      {
        ghost var before := vms[..];
        status := RunSpare(forks(k));
        if status == Settings.Aborted {
          assert vms[..] == before;
          return;
        }
        KeepsSlots(before, vms[..], old(vmsCount), k, vmsMax, forks);
        k := k + 1;
        if status != Settings.Returned(0) {
          return;
        }
      }
      status := Settings.Returned(0);
    }

    /**
     * `kvmpool` (kvm-pool.c:163-172): allocates a zeroed table of `vms_max`
     * slots (sized by `vm_t`, see TableBytes), provisions the spare VMs,
     * returns the first nonzero code with the table still allocated, and
     * otherwise frees the table.
     */
    method KvmPool(forks: nat -> Fork) returns (status: Settings.Status)
      requires Valid() && vmsCount == 0
      modifies this
      ensures Valid() && vmsMax == old(vmsMax) && vmsSpareMin == old(vmsSpareMin)
      ensures !status.Exited?
      ensures vmsCount == vmsSpareCount - old(vmsSpareCount)
      ensures status == Settings.Returned(0) ==>
                vms == null && vmsSpareCount == (if old(vmsSpareCount) >= vmsSpareMin then old(vmsSpareCount) else vmsSpareMin)
      ensures status.Returned? && status.rc != 0 ==>
                && vms != null && vmsCount > 0
                && forks(vmsCount - 1).ForkFailed? && forks(vmsCount - 1).errno == status.rc
                && forall k :: 0 <= k < vmsCount - 1 ==> forks(k).Spawned?
      ensures status == Settings.Aborted ==> vmsMax < 0 || (vmsCount == vmsMax && vmsSpareCount < vmsSpareMin)
      ensures (0 <= vmsMax && vmsSpareMin - old(vmsSpareCount) <= vmsMax &&
               forall k :: 0 <= k < vmsSpareMin - old(vmsSpareCount) ==> forks(k).Spawned?) ==> status == Settings.Returned(0)
    {
      if vmsMax < 0 {
        return Settings.Aborted;
      }
      vms := new Vm[vmsMax](_ => Vm(0, 0, 0, 0));
      status := PrepareSpareVms(forks);
      if status != Settings.Returned(0) {
        return;
      }
      vms := null;
    }
  }

  /**
   * As written, kvm-pool.c:166 allocates `vms_max * sizeof(vm_t *)` bytes:
   * a start-up with `vms_spare_min` above `vms_max / 2` and every fork
   * succeeding claims slot `vms_max / 2`, which ends past that allocation.
   */
  method SparesOverrunAsWritten(vmsMax: nat, vmsSpareMin: int) returns (slots: int)
    requires vmsMax / 2 < vmsSpareMin <= vmsMax
    ensures slots == vmsSpareMin && vmsMax / 2 < slots
    ensures SlotEnd(vmsMax / 2) > TableBytesAsWritten(vmsMax)
  {
    var pool := new Pool(vmsMax, vmsSpareMin);
    var status := pool.KvmPool(_ => Spawned(1));
    slots := pool.vmsCount;
    AsWrittenTableTooSmall(vmsMax, vmsMax / 2);
  }
}
