/**
 * The option part of the program context (`ctx_t`, ctx.h:91-118) and the
 * operations of main.c that update it: `kvm_arg`/`kvm_arg0` (the bounded
 * list of extra kvm arguments), `parse_parameter` (which source may set an
 * option, raw-value storage, the per-option effect), the expansion pass over
 * the kvm arguments in `main`, and `ctx_cleanup`.
 */
module Settings {
  import opened Wrappers
  import Options
  import Expand

  const MAXARGUMENTS: nat := 255
  const E2BIG: int := 7
  const EINVAL: int := 22
  const QUESTION: nat := '?' as nat

  /** `paramsource_t` (common.h:67-75). */
  datatype Source = Unknown | Argument | Config | Control | Defaults | Correction

  /** What `strtol` made of a string: its value and whether the whole string was a number in range. */
  datatype Strtol = Strtol(value: int, complete: bool)

  /**
   * How a call ends: it returns a code, the process exits through `syntax()`
   * or `version()`, or it aborts (`critical_on`, or a NULL value dereferenced).
   */
  datatype Status = Returned(rc: int) | Exited(code: int) | Aborted

  /** A C conversion to a 32-bit `int`: the value modulo 2^32, read as two's complement. */
  function ToInt32(x: int): (r: int)
    ensures -0x8000_0000 <= r < 0x8000_0000
    ensures (x - r) % 0x1_0000_0000 == 0
    ensures -0x8000_0000 <= x < 0x8000_0000 ==> r == x
  {
    var m := x % 0x1_0000_0000;
    if m >= 0x8000_0000 then m - 0x1_0000_0000 else m
  }

  /** `xstrtol`'s error code (main.c:398-411). */
  function NumberRc(n: Strtol): int {
    if n.complete then 0 else EINVAL
  }

  // ---------------------------------------------------------------------
  // The option state as a value, and `parse_parameter` on it.

  datatype State = State(isSet: seq<bool>, raw: seq<Option<string>>, flags: seq<int>,
                         configPath: Option<string>, configGroup: Option<string>,
                         vmsMin: int, vmsMax: int, vmsSpareMin: int, vmsSpareMax: int)

  predicate WellFormed(s: State) {
    |s.isSet| == OPTION_FLAGS && |s.raw| == OPTION_FLAGS && |s.flags| == OPTION_FLAGS
  }

  const OPTION_FLAGS := Options.OPTION_FLAGS

  /** The verdict of the first switch of main.c:420-464 on whether a value from `source` is taken. */
  datatype Admission = Proceed(mark: bool) | Ignore | Refuse | Abort

  function Admit(source: Source, id: nat, arg: Option<string>, isSet: bool): (a: Admission)
    ensures a == Refuse <==> (source == Argument || source == Control) && Options.HasBit(id, Options.OPTION_CONFIGONLY)
    ensures a == Ignore <==> source == Config && isSet
    ensures a == Abort <==> source == Correction && arg.None?
    ensures a.Proceed? ==> (a.mark <==> source == Argument || source == Control || source == Config)
  {
    match source
    case Argument => if Options.HasBit(id, Options.OPTION_CONFIGONLY) then Refuse else Proceed(true)
    case Control => if Options.HasBit(id, Options.OPTION_CONFIGONLY) then Refuse else Proceed(true)
    case Config => if isSet then Ignore else Proceed(true)
    case Correction => if arg.None? then Abort else Proceed(false)
    case Defaults => Proceed(false)
    case Unknown => Proceed(false)
  }

  /**
   * The raw value stored for option `id` (main.c:466-474): the expansion of
   * `a` against the options stored so far, except for the kvm arguments,
   * which are stored verbatim.
   */
  function Stored(id: nat, a: string, raw: seq<Option<string>>, pid: nat): (v: string)
    ensures id == Options.KVM_ARGS ==> v == a
    ensures id != Options.KVM_ARGS ==>
              var o := Expand.Expand(Expand.Guarded, a, Expand.Env(0, Options.Resolver(raw), pid));
              o.Done? && o.value == v
  {
    if id != Options.KVM_ARGS then Expand.Value(a, Expand.Env(0, Options.Resolver(raw), pid)) else a
  }

  datatype Parsed = Parsed(state: State, status: Status)

  /** The per-option effect of the value (the second switch, main.c:476-523). */
  function Effect(s: State, id: nat, v: Option<string>, strtol: string -> Strtol): (p: Parsed)
    requires WellFormed(s) && id < OPTION_FLAGS
    ensures WellFormed(p.state) && p.state.isSet == s.isSet && p.state.raw == s.raw
    ensures forall j :: 0 <= j < OPTION_FLAGS && j != id ==> p.state.flags[j] == s.flags[j]
  {
    if id == QUESTION || id == Options.HELP then Parsed(s, Exited(EINVAL))
    else if id == Options.SHOW_VERSION then Parsed(s, Exited(0))
    else if id == Options.CONFIG_FILE then
      if v.None? then Parsed(s, Aborted)
      else Parsed(s.(configPath := if v.value != [] then v else None), Returned(0))
    else if id == Options.CONFIG_GROUP then
      if v.None? then Parsed(s, Aborted)
      else Parsed(s.(configGroup := if v.value != [] then v else None), Returned(0))
    else if id == Options.CONFIG_GROUP_INHERITS then Parsed(s, Returned(0))
    else if id == Options.VMS_MIN || id == Options.VMS_MAX || id == Options.VMS_SPARE_MIN || id == Options.VMS_SPARE_MAX then
      if v.None? then Parsed(s, Aborted)
      else
        var n := strtol(v.value);
        var x := ToInt32(n.value);
        var t := if id == Options.VMS_MIN then s.(vmsMin := x)
                 else if id == Options.VMS_MAX then s.(vmsMax := x)
                 else if id == Options.VMS_SPARE_MIN then s.(vmsSpareMin := x)
                 else s.(vmsSpareMax := x);
        Parsed(t, Returned(NumberRc(n)))
    else if v.None? then Parsed(s.(flags := s.flags[id := ToInt32(s.flags[id] + 1)]), Returned(0))
    else
      var n := strtol(v.value);
      Parsed(s.(flags := s.flags[id := ToInt32(n.value)]), Returned(NumberRc(n)))
  }

  /** `parse_parameter(ctx, id, arg, source)` (main.c:413-526) as a function of the option state. */
  function Parse(s: State, id: nat, arg: Option<string>, source: Source, pid: nat, strtol: string -> Strtol): (p: Parsed)
    requires WellFormed(s) && id < OPTION_FLAGS
    ensures WellFormed(p.state)
    ensures !Admit(source, id, arg, s.isSet[id]).Proceed? ==> p.state == s
    ensures p.state.isSet == s.isSet[id := s.isSet[id] || Admit(source, id, arg, s.isSet[id]) == Proceed(true)]
    ensures forall j :: 0 <= j < OPTION_FLAGS && j != id ==> p.state.raw[j] == s.raw[j] && p.state.flags[j] == s.flags[j]
    ensures Admit(source, id, arg, s.isSet[id]).Proceed? && arg.Some? ==> p.state.raw[id] == Some(Stored(id, arg.value, s.raw, pid))
  {
    match Admit(source, id, arg, s.isSet[id])
    case Refuse => Parsed(s, Exited(EINVAL))
    case Ignore => Parsed(s, Returned(0))
    case Abort => Parsed(s, Aborted)
    case Proceed(mark) =>
      var s1 := if mark then s.(isSet := s.isSet[id := true]) else s;
      var v := if arg.Some? then Some(Stored(id, arg.value, s.raw, pid)) else None;
      var s2 := if arg.Some? then s1.(raw := s1.raw[id := v]) else s1;
      Effect(s2, id, v, strtol)
  }

  /** A value read from the configuration never replaces one already set by an argument or a control call. */
  lemma ConfigYields(s: State, id: nat, arg: Option<string>, pid: nat, strtol: string -> Strtol)
    requires WellFormed(s) && id < OPTION_FLAGS && s.isSet[id]
    ensures Parse(s, id, arg, Config, pid, strtol) == Parsed(s, Returned(0))
  {
  }

  /** What a taken value does to the option's own entries; every other option's entries are unchanged. */
  lemma ParseEntries(s: State, id: nat, arg: Option<string>, source: Source, pid: nat, strtol: string -> Strtol)
    requires WellFormed(s) && id < OPTION_FLAGS
    ensures var t := Parse(s, id, arg, source, pid, strtol).state;
      && (forall j :: 0 <= j < OPTION_FLAGS && j != id ==>
            t.isSet[j] == s.isSet[j] && t.raw[j] == s.raw[j] && t.flags[j] == s.flags[j])
      && (Admit(source, id, arg, s.isSet[id]).Proceed? ==>
            t.isSet[id] == (s.isSet[id] || source in {Argument, Control, Config}) &&
            t.raw[id] == (if arg.Some? then Some(Stored(id, arg.value, s.raw, pid)) else s.raw[id]))
      && (!Admit(source, id, arg, s.isSet[id]).Proceed? ==> t == s)
  {
    var a := Admit(source, id, arg, s.isSet[id]);
    if a.Proceed? {
      var s1 := if a.mark then s.(isSet := s.isSet[id := true]) else s;
      var v := if arg.Some? then Some(Stored(id, arg.value, s.raw, pid)) else None;
      var s2 := if arg.Some? then s1.(raw := s1.raw[id := v]) else s1;
      assert Parse(s, id, arg, source, pid, strtol) == Effect(s2, id, v, strtol);
    }
  }

  /** An argument given on the command line wins over a later configuration value for the same option. */
  lemma ArgumentBeatsConfig(s: State, id: nat, a: string, b: Option<string>, pid: nat, strtol: string -> Strtol)
    requires WellFormed(s) && id < OPTION_FLAGS && !Options.HasBit(id, Options.OPTION_CONFIGONLY)
    ensures var t := Parse(s, id, Some(a), Argument, pid, strtol).state;
      t.raw[id] == Some(Stored(id, a, s.raw, pid)) &&
      Parse(t, id, b, Config, pid, strtol) == Parsed(t, Returned(0))
  {
    ParseEntries(s, id, Some(a), Argument, pid, strtol);
  }

  /** A later argument or control call replaces a configuration value. */
  lemma ArgumentReplacesConfig(s: State, id: nat, a: string, b: string, source: Source, pid: nat, strtol: string -> Strtol)
    requires WellFormed(s) && id < OPTION_FLAGS && !Options.HasBit(id, Options.OPTION_CONFIGONLY)
    requires source == Argument || source == Control
    ensures var t := Parse(s, id, Some(b), Config, pid, strtol).state;
      Parse(t, id, Some(a), source, pid, strtol).state.raw[id] == Some(Stored(id, a, t.raw, pid))
  {
    var t := Parse(s, id, Some(b), Config, pid, strtol).state;
    ParseEntries(t, id, Some(a), source, pid, strtol);
  }

  /** A default does not claim the option: a configuration value read afterwards still replaces it. */
  lemma ConfigReplacesDefault(s: State, id: nat, a: string, b: string, pid: nat, strtol: string -> Strtol)
    requires WellFormed(s) && id < OPTION_FLAGS && !s.isSet[id]
    ensures var t := Parse(s, id, Some(a), Defaults, pid, strtol).state;
      !t.isSet[id] &&
      Parse(t, id, Some(b), Config, pid, strtol).state.raw[id] == Some(Stored(id, b, t.raw, pid))
  {
    ParseEntries(s, id, Some(a), Defaults, pid, strtol);
    var t := Parse(s, id, Some(a), Defaults, pid, strtol).state;
    ParseEntries(t, id, Some(b), Config, pid, strtol);
  }

  /**
   * A stored value is what `parameter_get` returns for the option's long
   * name, and so what later `%name%` macros expand to.
   */
  lemma StoredVisible(s: State, id: nat, a: string, source: Source, pid: nat, strtol: string -> Strtol, k: nat)
    requires WellFormed(s) && id < OPTION_FLAGS && Admit(source, id, Some(a), s.isSet[id]).Proceed?
    requires k < |Options.LongOptions| && Options.LongOptions[k].val == id
    requires Options.FirstNamed(Options.LongOptions, k, Options.LongOptions[k].name)
    ensures Options.ParameterGet(Parse(s, id, Some(a), source, pid, strtol).state.raw, Options.LongOptions[k].name) ==
            Some(Stored(id, a, s.raw, pid))
  {
    ParseEntries(s, id, Some(a), source, pid, strtol);
  }

  /** `--max-vms` and its kin store the number truncated to `int`; a malformed number returns EINVAL. */
  lemma VmsMaxParsed(s: State, a: string, source: Source, pid: nat, strtol: string -> Strtol)
    requires WellFormed(s) && Admit(source, Options.VMS_MAX, Some(a), s.isSet[Options.VMS_MAX]).Proceed?
    ensures var n := strtol(Stored(Options.VMS_MAX, a, s.raw, pid));
      var p := Parse(s, Options.VMS_MAX, Some(a), source, pid, strtol);
      p.state.vmsMax == ToInt32(n.value) && p.status == Returned(if n.complete then 0 else EINVAL)
  {
  }

  /**
   * `--listen` has no case of its own in the second switch: its value is
   * stored, then read as a number into `flags[LISTEN]` by the default branch,
   * so an address such as "0.0.0.0:5900" that is not a whole number returns
   * EINVAL.
   */
  lemma ListenParsedAsNumber(s: State, a: string, source: Source, pid: nat, strtol: string -> Strtol)
    requires WellFormed(s) && Admit(source, Options.LISTEN, Some(a), s.isSet[Options.LISTEN]).Proceed?
    ensures var v := Stored(Options.LISTEN, a, s.raw, pid);
      var p := Parse(s, Options.LISTEN, Some(a), source, pid, strtol);
      && p.state.raw[Options.LISTEN] == Some(v)
      && p.state.flags[Options.LISTEN] == ToInt32(strtol(v).value)
      && (!strtol(v).complete ==> p.status == Returned(EINVAL))
      && p.state.configPath == s.configPath && p.state.vmsMax == s.vmsMax
  {
  }

  // ---------------------------------------------------------------------
  // The extra kvm arguments (`kvm_args_t`, ctx.h:59-64).

  /** The strings of a NULL-free prefix of a pointer array. */
  function Values(s: seq<Option<string>>): (r: seq<string>)
    requires forall i :: 0 <= i < |s| ==> s[i].Some?
    ensures |r| == |s| && forall i :: 0 <= i < |s| ==> s[i] == Some(r[i])
  {
    seq(|s|, i requires 0 <= i < |s| => s[i].value)
  }

  /** The pointer array once its first `n` arguments are replaced by their expansions. */
  ghost function ExpandedPrefix(s: seq<Option<string>>, n: int, env: Expand.Env): seq<Option<string>> {
    seq(|s|, j requires 0 <= j < |s| => if j < n && s[j].Some? then Some(Expand.Value(s[j].value, env)) else s[j])
  }

  /** The marks once the first `n` arguments are marked when all their macros resolved. */
  ghost function MarkedPrefix(m: seq<bool>, s: seq<Option<string>>, n: int, env: Expand.Env): seq<bool> {
    seq(|m|, j requires 0 <= j < |m| =>
      if j < n && j < |s| && s[j].Some? then m[j] || Expand.AllResolved(s[j].value, env) else m[j])
  }

  class KvmArgs {
    const v: array<Option<string>>
    const isExpanded: array<bool>
    var c: int

    ghost predicate Valid()
      reads this, v
    {
      && v.Length == MAXARGUMENTS && isExpanded.Length == MAXARGUMENTS
      && 0 <= c <= MAXARGUMENTS - 2
      && forall i :: 0 <= i < c ==> v[i].Some?
    }

    /** The arguments `v[0..c)`. */
    ghost function Args(): (r: seq<string>)
      reads this, v
      requires Valid()
      ensures |r| == c
    {
      Values(v[..c])
    }

    /** The zeroed structure the context is allocated with. */
    constructor ()
      ensures Valid() && fresh(v) && fresh(isExpanded) && Args() == []
      ensures v[..] == seq(MAXARGUMENTS, _ => None) && isExpanded[..] == seq(MAXARGUMENTS, _ => false)
    {
      v := new Option<string>[MAXARGUMENTS](_ => None);
      isExpanded := new bool[MAXARGUMENTS](_ => false);
      c := 0;
    }

    /**
     * `kvm_arg`/`kvm_arg0` (main.c:372-395): appends `arg` unless `c` has
     * reached MAXARGUMENTS-2, in which case it returns E2BIG and changes nothing.
     */
    method Append(arg: string) returns (rc: int)
      requires Valid()
      modifies this, v
      ensures Valid() && c <= MAXARGUMENTS - 2
      ensures rc == (if old(c) < MAXARGUMENTS - 2 then 0 else E2BIG)
      ensures c == (if rc == 0 then old(c) + 1 else old(c))
      ensures v[..] == (if rc == 0 then old(v[..])[old(c) := Some(arg)] else old(v[..]))
      ensures Args() == (if rc == 0 then old(Args()) + [arg] else old(Args()))
    {
      if c >= MAXARGUMENTS - 2 {
        return E2BIG;
      }
      v[c] := Some(arg);
      c := c + 1;
      rc := 0;
      assert v[..c] == old(v[..c]) + [Some(arg)];
    }

    /**
     * main.c:866-885: every argument is replaced by its lazy expansion
     * (flags 4) and marked expanded when all its macros were resolved.
     */
    method ExpandAll(resolve: string -> Option<string>, pid: nat)
      requires Valid()
      modifies v, isExpanded
      ensures Valid() && c == old(c)
      ensures forall i :: 0 <= i < c ==>
                v[i] == Some(Expand.Value(old(v[i]).value, Expand.Env(Expand.LAZY, resolve, pid))) &&
                isExpanded[i] == (old(isExpanded[i]) ||
                                  Expand.AllResolved(old(v[i]).value, Expand.Env(Expand.LAZY, resolve, pid)))
      ensures forall i :: c <= i < MAXARGUMENTS ==> v[i] == old(v[i]) && isExpanded[i] == old(isExpanded[i])
    {
      var env := Expand.Env(Expand.LAZY, resolve, pid);
      ghost var args0, marks0 := v[..], isExpanded[..];
      var i := 0;
      while i < c
        invariant 0 <= i <= c
        invariant v[..] == ExpandedPrefix(args0, i, env)
        invariant isExpanded[..] == MarkedPrefix(marks0, args0, i, env)
      {
        ExpandAt(i, env);
        i := i + 1;
      }
    }

    /** One iteration of main.c:866-885: expands argument `i` and marks it when all its macros resolved. */
    method ExpandAt(i: int, env: Expand.Env)
      requires Valid() && 0 <= i < c
      modifies v, isExpanded
      ensures Valid() && c == old(c)
      ensures v[..] == old(v[..])[i := Some(Expand.Value(old(v[i]).value, env))]
      ensures isExpanded[..] == old(isExpanded[..])[i := old(isExpanded[i]) || Expand.AllResolved(old(v[i]).value, env)]
    {
      var arg := v[i].value;
      var o := Expand.ParameterExpand(Expand.Guarded, arg, env);
      Expand.FullyExpanded(arg, env);
      assert o.value == Expand.Value(arg, env);
      v[i] := Some(o.value);
      if o.macros == o.expanded {
        isExpanded[i] := true;
      }
    }

    /** The kvm-argument half of `ctx_cleanup` (main.c:748-766): frees `v[0..c)` and resets `c`. */
    method Clear()
      requires Valid()
      modifies this, v
      ensures Valid() && c == 0 && Args() == []
      ensures forall i :: 0 <= i < MAXARGUMENTS ==> v[i] == (if i < old(c) then None else old(v[i]))
    {
      var i := 0;
      while i < c
        invariant c == old(c) && 0 <= i <= c
        invariant forall j :: 0 <= j < MAXARGUMENTS ==> v[j] == (if j < i then None else old(v[j]))
      {
        v[i] := None;
        i := i + 1;
      }
      c := 0;
    }
  }

  // ---------------------------------------------------------------------
  // The context itself.

  class Settings {
    const isSet: array<bool>
    const raw: array<Option<string>>
    const flags: array<int>
    var configPath: Option<string>
    var configGroup: Option<string>
    var vmsMin: int
    var vmsMax: int
    var vmsSpareMin: int
    var vmsSpareMax: int
    const pid: nat
    const args: KvmArgs

    ghost predicate Valid()
      reads this, args, args.v
    {
      && isSet.Length == OPTION_FLAGS && raw.Length == OPTION_FLAGS && flags.Length == OPTION_FLAGS
      && args.v != raw && args.isExpanded != isSet
      && args.Valid()
    }

    ghost function Model(): (s: State)
      reads this, isSet, raw, flags
    {
      State(isSet[..], raw[..], flags[..], configPath, configGroup, vmsMin, vmsMax, vmsSpareMin, vmsSpareMax)
    }

    /** A zeroed context with the default configuration group and the process id (main.c:838-846). */
    constructor (pid: nat)
      ensures Valid() && this.pid == pid && fresh(isSet) && fresh(raw) && fresh(flags)
      ensures fresh(args) && fresh(args.v) && fresh(args.isExpanded) && args.Args() == []
      ensures Model() == State(seq(OPTION_FLAGS, _ => false), seq(OPTION_FLAGS, _ => None), seq(OPTION_FLAGS, _ => 0),
                               None, Some("default"), 0, 0, 0, 0)
    {
      isSet := new bool[OPTION_FLAGS](_ => false);
      raw := new Option<string>[OPTION_FLAGS](_ => None);
      flags := new int[OPTION_FLAGS](_ => 0);
      configPath := None;
      configGroup := Some("default");
      vmsMin, vmsMax, vmsSpareMin, vmsSpareMax := 0, 0, 0, 0;
      this.pid := pid;
      args := new KvmArgs();
    }

    /** `parse_parameter` (main.c:413-526) on the context. */
    method ParseParameter(id: nat, arg: Option<string>, source: Source, strtol: string -> Strtol) returns (status: Status)
      requires Valid() && id < OPTION_FLAGS
      modifies this, isSet, raw, flags
      ensures Valid()
      ensures Model() == Parse(old(Model()), id, arg, source, pid, strtol).state
      ensures status == Parse(old(Model()), id, arg, source, pid, strtol).status
    {
      match source {
        case Argument =>
          if Options.HasBit(id, Options.OPTION_CONFIGONLY) { return Exited(EINVAL); }
          isSet[id] := true;
        case Control =>
          if Options.HasBit(id, Options.OPTION_CONFIGONLY) { return Exited(EINVAL); }
          isSet[id] := true;
        case Config =>
          if isSet[id] { return Returned(0); }
          isSet[id] := true;
        case Defaults =>
        case Correction =>
          if arg.None? { return Aborted; }
        case Unknown =>
      }
      var v := StoreValue(id, arg);
      status := ApplyEffect(id, v, strtol);
    }

    /** main.c:466-474: stores the value, expanded unless it is the kvm arguments, and passes it on. */
    method StoreValue(id: nat, arg: Option<string>) returns (v: Option<string>)
      requires Valid() && id < OPTION_FLAGS
      modifies raw
      ensures Valid()
      ensures v == (if arg.Some? then Some(Stored(id, arg.value, old(raw[..]), pid)) else None)
      ensures Model() == if arg.Some? then old(Model()).(raw := old(raw[..])[id := v]) else old(Model())
    {
      v := arg;
      if arg.Some? {
        var a := arg.value;
        if id != Options.KVM_ARGS {
          var env := Expand.Env(0, Options.Resolver(raw[..]), pid);
          var o := Expand.ParameterExpand(Expand.Guarded, a, env);
          ghost var w := Expand.Value(a, env);
          a := o.value;
        }
        raw[id] := Some(a);
        v := Some(a);
      }
    }

    /** The second switch of `parse_parameter` (main.c:476-523). */
    method ApplyEffect(id: nat, v: Option<string>, strtol: string -> Strtol) returns (status: Status)
      requires Valid() && id < OPTION_FLAGS
      modifies this, flags
      ensures Valid() && isSet[..] == old(isSet[..]) && raw[..] == old(raw[..])
      ensures Model() == Effect(old(Model()), id, v, strtol).state
      ensures status == Effect(old(Model()), id, v, strtol).status
    {
      if id == QUESTION || id == Options.HELP {
        return Exited(EINVAL);
      } else if id == Options.SHOW_VERSION {
        return Exited(0);
      } else if id == Options.CONFIG_FILE {
        if v.None? { return Aborted; }
        configPath := if v.value != [] then v else None;
      } else if id == Options.CONFIG_GROUP {
        if v.None? { return Aborted; }
        configGroup := if v.value != [] then v else None;
      } else if id == Options.CONFIG_GROUP_INHERITS {
      } else if id == Options.VMS_MIN || id == Options.VMS_MAX || id == Options.VMS_SPARE_MIN || id == Options.VMS_SPARE_MAX {
        if v.None? { return Aborted; }
        var n := strtol(v.value);
        if id == Options.VMS_MIN {
          vmsMin := ToInt32(n.value);
        } else if id == Options.VMS_MAX {
          vmsMax := ToInt32(n.value);
        } else if id == Options.VMS_SPARE_MIN {
          vmsSpareMin := ToInt32(n.value);
        } else {
          vmsSpareMax := ToInt32(n.value);
        }
        return Returned(NumberRc(n));
      } else if v.None? {
        flags[id] := ToInt32(flags[id] + 1);
      } else {
        var n := strtol(v.value);
        flags[id] := ToInt32(n.value);
        return Returned(NumberRc(n));
      }
      status := Returned(0);
    }

    /**
     * `ctx_cleanup` (main.c:734-769): frees every raw option value and every
     * kvm argument; afterwards no option name resolves.
     */
    method CtxCleanup()
      requires Valid()
      modifies raw, args, args.v
      ensures Valid() && args.c == 0 && args.Args() == []
      ensures raw[..] == seq(OPTION_FLAGS, _ => None)
      ensures forall name :: Options.ParameterGet(raw[..], name) == None
      ensures forall i :: 0 <= i < MAXARGUMENTS ==> args.v[i] == (if i < old(args.c) then None else old(args.v[i]))
    {
      var i := 0;
      while i < OPTION_FLAGS
        invariant 0 <= i <= OPTION_FLAGS
        invariant forall j :: 0 <= j < i ==> raw[j] == None
        invariant unchanged(args) && unchanged(args.v)
      {
        if raw[i] != None {
          raw[i] := None;
        }
        i := i + 1;
      }
      assert raw[..] == seq(OPTION_FLAGS, _ => None);
      args.Clear();
    }
  }
}
