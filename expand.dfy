/**
 * `parameter_expand` (main.c:222-370): the `%NAME%` macro expander used to
 * build the worker's launch arguments and to expand option values.
 *
 * The output buffer `ret` is grown with xrealloc; it is modelled as its
 * contents (the `ret_len` characters written so far) and its capacity
 * (`ret_size`). Three writes in the source are not preceded by a growth
 * check: the escaped percent (main.c:269) and the terminating NUL of an
 * unterminated macro (main.c:282) and of the result (main.c:262). In the
 * model a write that would go through a NULL `ret` or past `ret_size` ends
 * the run with a `Crashed` outcome instead of silently succeeding.
 *
 * `Writes.AsWritten` follows the source. `Writes.Guarded` puts the growth
 * check of main.c:357-360 in front of those writes; it is the corrected
 * expander that the rest of the model uses.
 */
module Expand {
  import opened Wrappers
  import Text

  /** common.h:38 */
  const ALLOC_PORTION: nat := 1024

  /** Bit of `exceptionflags` that keeps upper-case macros verbatim (main.c:313). */
  const LAZY: nat := 4

  predicate Lazy(exceptionFlags: nat) {
    (exceptionFlags / LAZY) % 2 == 1
  }

  /**
   * What the expander can see besides the argument: its `exceptionflags`,
   * the variable resolver (`parameter_get` with its argument) and the pid
   * stored in the context.
   */
  datatype Env = Env(exceptionFlags: nat, resolve: string -> Option<string>, pid: nat)

  datatype Writes = AsWritten | Guarded

  datatype Fault = NullWrite | OutOfBounds

  /**
   * The returned string with the final values of `*macro_count_p` and
   * `*expand_count_p`, or the write that would corrupt memory.
   */
  datatype Outcome = Done(value: string, macros: nat, expanded: nat) | Crashed(fault: Fault, at: nat)

  /** The buffer `ret`: NULL, or `ret_len` characters `text` in `ret_size` bytes. */
  datatype Ret = Null | Allocated(text: string, size: nat)

  function TextOf(r: Ret): string {
    if r.Null? then [] else r.text
  }

  function SizeOf(r: Ret): nat {
    if r.Null? then 0 else r.size
  }

  /**
   * Room the buffer keeps in each mode: the text itself for AsWritten (an
   * unchecked write may fill it to the last byte), also the NUL for Guarded.
   */
  predicate Fits(mode: Writes, r: Ret) {
    r.Allocated? ==> if mode == AsWritten then |r.text| <= r.size else |r.text| < r.size
  }

  /** The growth check before a single character is appended (main.c:357-360). */
  function GrowForChar(r: Ret): (g: Ret)
    requires Fits(AsWritten, r)
    ensures g.Allocated? && g.text == TextOf(r) && |g.text| + 1 < g.size
  {
    if |TextOf(r)| + 2 >= SizeOf(r) then Allocated(TextOf(r), SizeOf(r) + ALLOC_PORTION + 2) else r
  }

  /** The growth check before `n` characters of a macro value are copied (main.c:340-343). */
  function GrowFor(r: Ret, n: nat): (g: Ret)
    ensures g.Allocated? && g.text == TextOf(r) && |g.text| + n < g.size
  {
    if |TextOf(r)| + n + 1 >= SizeOf(r) then Allocated(TextOf(r), |TextOf(r)| + n + 1 + ALLOC_PORTION) else r
  }

  /** How a closed macro `%name%` is treated (main.c:303-336). */
  datatype Macro = PidMacro | LazyMacro | Resolved(value: string) | Unresolved

  /** `strcmp(name, "PID") == 0` (main.c:303), spelled out character by character. */
  predicate IsPid(name: string) {
    |name| == 3 && name[0] == 'P' && name[1] == 'I' && name[2] == 'D'
  }

  /**
   * "PID" is the pid macro; otherwise a name starting with a capital letter is
   * left for later when the lazy flag is set; otherwise it is looked up.
   */
  function Classify(name: string, env: Env): Macro {
    if IsPid(name) then PidMacro
    else if |name| > 0 && 'A' <= name[0] <= 'Z' && Lazy(env.exceptionFlags) then LazyMacro
    else match env.resolve(name)
      case Some(v) => Resolved(v)
      case None => Unresolved
  }

  /** Which of the four treatments a macro gets, in terms of its name, the flags and the lookup. */
  lemma ClassifyCases(name: string, env: Env)
    ensures var m := Classify(name, env);
      && (m.PidMacro? <==> IsPid(name))
      && (m.LazyMacro? <==> !IsPid(name) && |name| > 0 && 'A' <= name[0] <= 'Z' && Lazy(env.exceptionFlags))
      && (m.Resolved? ==> env.resolve(name) == Some(m.value))
      && (m.Unresolved? ==> env.resolve(name).None?)
  {
  }

  /** The text a closed macro contributes to the result. */
  function MacroText(m: Macro, name: string, pid: nat): string {
    match m
    case PidMacro => Text.Decimal(pid)
    case LazyMacro => "%" + name + "%"
    case Resolved(v) => v
    case Unresolved => ""
  }

  /** The position of the first '%' at or after `k`, or |s| (the NUL) if none (main.c:277-280). */
  function NextPercent(s: string, k: nat): (j: nat)
    requires k <= |s|
    ensures k <= j <= |s|
    ensures j < |s| ==> s[j] == '%'
    ensures forall m :: k <= m < j ==> s[m] != '%'
    decreases |s| - k
  {
    if k == |s| || s[k] == '%' then k else NextPercent(s, k + 1)
  }

  lemma NextPercentUnique(s: string, k: nat, j: nat)
    requires k <= j <= |s|
    requires j < |s| ==> s[j] == '%'
    requires forall m :: k <= m < j ==> s[m] != '%'
    ensures NextPercent(s, k) == j
  {
  }

  /**
   * What the loop of main.c:252-366 finds at `ptr`: "%%" (main.c:268), a
   * macro closed by a later '%' (main.c:290), a '%' with no closing one
   * (main.c:281), or any other character (main.c:356).
   */
  datatype Token = Escape | Macro(name: string) | Unterminated | Char(c: char)

  /** How many characters of the argument a token spans (an unterminated macro ends the loop). */
  function Width(t: Token): nat {
    match t
    case Escape => 2
    case Macro(name) => |name| + 2
    case Unterminated => 0
    case Char(_) => 1
  }

  /** The token at index `i` of `arg`. */
  function LexAt(arg: string, i: nat): (t: Token)
    requires i < |arg|
    ensures i + Width(t) <= |arg|
  {
    if arg[i] == '%' && i + 1 < |arg| && arg[i + 1] == '%' then Escape
    else if arg[i] == '%' then
      var j := NextPercent(arg, i + 1);
      if j == |arg| then Unterminated else Macro(arg[i + 1..j])
    else Char(arg[i])
  }

  /**
   * What the switch on `*ptr` sees: any character but '%' is copied as is,
   * "%%" is an escape, and a '%' that does not open "%%" starts a macro
   * exactly when a later '%' closes it, the macro's name being the text
   * between the two, which holds no '%'.
   */
  lemma LexCases(arg: string, i: nat)
    requires i < |arg|
    ensures LexAt(arg, i).Char? <==> arg[i] != '%'
    ensures LexAt(arg, i).Char? ==> LexAt(arg, i).c == arg[i]
    ensures LexAt(arg, i).Escape? <==> arg[i] == '%' && i + 1 < |arg| && arg[i + 1] == '%'
    ensures LexAt(arg, i).Unterminated? <==> arg[i] == '%' && forall m :: i < m < |arg| ==> arg[m] != '%'
    ensures var t := LexAt(arg, i);
      t.Macro? ==>
        && arg[i] == '%' && arg[i + 1..i + 1 + |t.name|] == t.name && arg[i + 1 + |t.name|] == '%'
        && forall m :: 0 <= m < |t.name| ==> t.name[m] != '%'
  {
    if arg[i] == '%' && !(i + 1 < |arg| && arg[i + 1] == '%') {
      var j := NextPercent(arg, i + 1);
      if j < |arg| {
        assert arg[j] == '%';
      }
    }
  }

  lemma SubSlice(a: string, i: nat, lo: nat, hi: nat)
    requires lo <= hi && i + hi <= |a|
    ensures a[i..][lo..hi] == a[i + lo..i + hi]
  {
  }

  /** Equal suffixes start with equal tokens. */
  lemma LexShift(a: string, i: nat, b: string, j: nat)
    requires i < |a| && j < |b| && a[i..] == b[j..]
    ensures LexAt(a, i) == LexAt(b, j)
  {
    assert a[i] == b[j] by { assert a[i..][0] == b[j..][0]; }
    if i + 1 < |a| {
      assert a[i + 1] == b[j + 1] by { assert a[i..][1] == b[j..][1]; }
    }
    var ka := NextPercent(a, i + 1);
    forall m | j + 1 <= m < j + ka - i ensures b[m] != '%' {
      assert b[m] == a[m - j + i] by { assert b[j..][m - j] == a[i..][m - j]; }
    }
    if ka < |a| {
      assert b[j + ka - i] == a[ka] by { assert b[j..][ka - i] == a[i..][ka - i]; }
    }
    NextPercentUnique(b, j + 1, j + ka - i);
    if ka < |a| {
      SubSlice(a, i, 1, ka - i);
      SubSlice(b, j, 1, ka - i);
    }
  }

  /** The state the loop carries into its next iteration, or the value `parameter_expand` ends with. */
  datatype Step = Next(i: nat, ret: Ret, macros: nat, expanded: nat) | Stop(outcome: Outcome)

  /** One iteration of the loop of main.c:252-366 with `ptr` at index `i`. */
  function StepAt(mode: Writes, arg: string, env: Env, i: nat, ret: Ret, macros: nat, expanded: nat): (st: Step)
    requires i < |arg| && Fits(mode, ret)
    ensures st.Next? ==> i < st.i <= |arg| && Fits(mode, st.ret)
  {
    match LexAt(arg, i)
    case Escape =>
      // main.c:268-271: "%%" is one literal '%', written without a growth check
      var w := if mode == Guarded then GrowForChar(ret) else ret;
      if w.Null? then Stop(Crashed(NullWrite, i))
      else if |w.text| >= w.size then Stop(Crashed(OutOfBounds, i))
      else Next(i + 2, Allocated(w.text + "%", w.size), macros, expanded)
    case Unterminated =>
      // main.c:281-288: the result ends before the '%', its NUL written without a growth check
      var w := if mode == Guarded then GrowForChar(ret) else ret;
      if w.Null? then Stop(Crashed(NullWrite, i))
      else if |w.text| >= w.size then Stop(Crashed(OutOfBounds, i))
      else Stop(Done(w.text, macros, expanded))
    case Macro(name) =>
      // main.c:290-348
      var m := Classify(name, env);
      if m.Unresolved? then Next(i + |name| + 2, ret, macros + 1, expanded)
      else
        var value := MacroText(m, name, env.pid);
        var g := GrowFor(ret, |value|);
        Next(i + |name| + 2, Allocated(g.text + value, g.size), macros + 1,
             if m.Resolved? then expanded + 1 else expanded)
    case Char(c) =>
      // main.c:356-364
      var g := GrowForChar(ret);
      Next(i + 1, Allocated(g.text + [c], g.size), macros, expanded)
  }

  /** main.c:256-265: at the NUL of `arg`, terminate `ret`, or return `arg` if nothing was written. */
  function Finish(arg: string, ret: Ret, macros: nat, expanded: nat): (o: Outcome)
    ensures ret.Null? ==> o == Done(arg, macros, expanded)
    ensures o.Crashed? <==> ret.Allocated? && |ret.text| >= ret.size
    ensures o.Done? ==> o.macros == macros && o.expanded == expanded
    ensures o.Done? && ret.Allocated? ==> o.value == ret.text
  {
    if ret.Null? then Done(arg, macros, expanded)
    else if |ret.text| < ret.size then Done(ret.text, macros, expanded)
    else Crashed(OutOfBounds, |arg|)
  }

  /** The loop of main.c:252-366 from index `i` with buffer `ret` and the two counters. */
  function ExpandFrom(mode: Writes, arg: string, env: Env, i: nat, ret: Ret, macros: nat, expanded: nat): Outcome
    requires i <= |arg| && Fits(mode, ret)
    decreases |arg| - i
  {
    if i == |arg| then Finish(arg, ret, macros, expanded)
    else
      var st := StepAt(mode, arg, env, i, ret, macros, expanded);
      if st.Stop? then st.outcome else ExpandFrom(mode, arg, env, st.i, st.ret, st.macros, st.expanded)
  }

  /**
   * The loop only counts up: every macro it passes adds one to `macros` and
   * at most one to `expanded`; a crash happens at or after the start index.
   */
  lemma {:induction false} ExpandCounts(mode: Writes, arg: string, env: Env, i: nat, ret: Ret, macros: nat, expanded: nat)
    requires i <= |arg| && Fits(mode, ret)
    ensures var o := ExpandFrom(mode, arg, env, i, ret, macros, expanded);
      && (o.Done? ==> macros <= o.macros && expanded <= o.expanded && o.expanded - expanded <= o.macros - macros)
      && (o.Crashed? ==> i <= o.at <= |arg|)
    decreases |arg| - i
  {
    if i < |arg| {
      var st := StepAt(mode, arg, env, i, ret, macros, expanded);
      if st.Next? {
        ExpandCounts(mode, arg, env, st.i, st.ret, st.macros, st.expanded);
      }
    }
  }

  /** `parameter_expand` from its entry state: `ret` NULL, both counters zero (main.c:233-248). */
  function Expand(mode: Writes, arg: string, env: Env): (o: Outcome)
    ensures o.Done? ==> o.expanded <= o.macros
    ensures o.Crashed? ==> o.at <= |arg|
    ensures o.Done? && arg == [] ==> o.value == [] && o.macros == 0
  {
    ExpandCounts(mode, arg, env, 0, Null, 0, 0);
    ExpandFrom(mode, arg, env, 0, Null, 0, 0)
  }

  /** The scan of main.c:277-280 for the '%' that closes a macro. */
  method FindPercent(arg: string, k: nat) returns (j: nat)
    requires k <= |arg|
    ensures j == NextPercent(arg, k)
  {
    j := k;
    while j < |arg| && arg[j] != '%'
      invariant k <= j <= |arg|
      invariant forall m :: k <= m < j ==> arg[m] != '%'
    {
      j := j + 1;
    }
    NextPercentUnique(arg, k, j);
  }

  /**
   * The body of the loop of main.c:252-366 with `ptr` at index `i`; `ret`
   * is `owned`/`text`/`size` (NULL, `ret_len` characters, `ret_size`). The
   * NUL that main.c:299 patches into `arg` while the name is looked up is
   * always restored (main.c:327, main.c:338), so `arg` is read-only here.
   */
  method Iteration(mode: Writes, arg: string, env: Env, i: nat, ret: Ret, macros: nat, expanded: nat)
    returns (st: Step)
    requires i < |arg| && Fits(mode, ret)
    ensures st == StepAt(mode, arg, env, i, ret, macros, expanded)
  {
    var owned := ret.Allocated?;
    var text := TextOf(ret);
    var size := SizeOf(ret);
    if arg[i] == '%' && i + 1 < |arg| && arg[i + 1] == '%' {
      if mode == Guarded && |text| + 2 >= size {
        size := size + ALLOC_PORTION + 2;
        owned := true;
      }
      if !owned {
        return Stop(Crashed(NullWrite, i));
      }
      if |text| >= size {
        return Stop(Crashed(OutOfBounds, i));
      }
      return Next(i + 2, Allocated(text + "%", size), macros, expanded);
    } else if arg[i] == '%' {
      var j := FindPercent(arg, i + 1);
      if j == |arg| {
        if mode == Guarded && |text| + 2 >= size {
          size := size + ALLOC_PORTION + 2;
          owned := true;
        }
        if !owned {
          return Stop(Crashed(NullWrite, i));
        }
        if |text| >= size {
          return Stop(Crashed(OutOfBounds, i));
        }
        return Stop(Done(text, macros, expanded));
      }
      var name := arg[i + 1..j];
      var m := Classify(name, env);
      if m.Unresolved? {
        return Next(j + 1, ret, macros + 1, expanded);
      }
      var value := MacroText(m, name, env.pid);
      if |text| + |value| + 1 >= size {
        size := |text| + |value| + 1 + ALLOC_PORTION;
      }
      return Next(j + 1, Allocated(text + value, size), macros + 1, if m.Resolved? then expanded + 1 else expanded);
    } else {
      if |text| + 2 >= size {
        size := size + ALLOC_PORTION + 2;
      }
      return Next(i + 1, Allocated(text + [arg[i]], size), macros, expanded);
    }
  }

  /** `parameter_expand` (main.c:222-370). */
  method ParameterExpand(mode: Writes, arg: string, env: Env) returns (r: Outcome)
    ensures r == Expand(mode, arg, env)
  {
    var ret := Null;
    var macros: nat := 0;
    var expanded: nat := 0;
    var i: nat := 0;
    while i < |arg|
      invariant i <= |arg| && Fits(mode, ret)
      invariant ExpandFrom(mode, arg, env, i, ret, macros, expanded) == Expand(mode, arg, env)
      decreases |arg| - i
    {
      var st := Iteration(mode, arg, env, i, ret, macros, expanded);
      if st.Stop? {
        return st.outcome;
      }
      i, ret, macros, expanded := st.i, st.ret, st.macros, st.expanded;
    }
    if ret.Null? {
      return Done(arg, macros, expanded);
    }
    if |ret.text| >= ret.size {
      return Crashed(OutOfBounds, i);
    }
    return Done(ret.text, macros, expanded);
  }

  // ---------------------------------------------------------------------
  // A reference reading of an argument, independent of buffers and sizes.

  /**
   * The text an argument stands for, the numbers of closed and of resolved
   * macros in it, and whether it consists only of unresolved macros (so that
   * nothing is ever appended to `ret`).
   */
  datatype Reading = Reading(text: string, macros: nat, expanded: nat, silent: bool)

  /**
   * Reads `arg` from index `i` token by token: "%%" is a literal '%', a
   * closed macro stands for its text, an unterminated macro ends the text,
   * and any other character stands for itself.
   */
  function ReadFrom(arg: string, env: Env, i: nat): (r: Reading)
    requires i <= |arg|
    ensures r.expanded <= r.macros
    ensures r.silent ==> r.text == []
    decreases |arg| - i
  {
    if i == |arg| then Reading([], 0, 0, true)
    else
      var t := LexAt(arg, i);
      if t.Unterminated? then Reading([], 0, 0, false)
      else ReadToken(t, env, ReadFrom(arg, env, i + Width(t)))
  }

  /** What one token adds in front of the reading `r` of the rest. */
  function ReadToken(t: Token, env: Env, r: Reading): (q: Reading)
    requires r.expanded <= r.macros && (r.silent ==> r.text == [])
    ensures q.expanded <= q.macros && (q.silent ==> q.text == [])
  {
    match t
    case Escape => Reading("%" + r.text, r.macros, r.expanded, false)
    case Unterminated => Reading([], 0, 0, false)
    case Macro(name) =>
      var m := Classify(name, env);
      Reading(MacroText(m, name, env.pid) + r.text, r.macros + 1,
              if m.Resolved? then r.expanded + 1 else r.expanded, m.Unresolved? && r.silent)
    case Char(c) => Reading([c] + r.text, r.macros, r.expanded, false)
  }

  function Read(s: string, env: Env): Reading {
    ReadFrom(s, env, 0)
  }

  /** ReadUnfold for a token already known. */
  lemma ReadUnfoldAs(a: string, env: Env, i: nat, t: Token, k: nat)
    requires i < |a| && LexAt(a, i) == t && !t.Unterminated? && k == i + Width(t)
    ensures k <= |a| && ReadFrom(a, env, i) == ReadToken(t, env, ReadFrom(a, env, k))
  {
    ReadUnfold(a, env, i);
  }

  lemma ReadUnfold(a: string, env: Env, i: nat)
    requires i < |a|
    ensures var t := LexAt(a, i);
      ReadFrom(a, env, i) == ReadToken(t, env, ReadFrom(a, env, i + Width(t)))
  {
  }

  lemma DropShift(a: string, i: nat, b: string, j: nat, w: nat)
    requires i + w <= |a| && j <= |b| && a[i..] == b[j..]
    ensures j + w <= |b| && a[i + w..] == b[j + w..]
  {
    assert a[i + w..] == a[i..][w..];
    assert b[j + w..] == b[j..][w..];
  }

  /** The reading depends only on the characters from `i` on. */
  lemma {:induction false} ReadShift(a: string, env: Env, i: nat, b: string, j: nat)
    requires i <= |a| && j <= |b| && a[i..] == b[j..]
    ensures ReadFrom(a, env, i) == ReadFrom(b, env, j)
    decreases |a| - i, 1
  {
    if i < |a| {
      var w := ShiftToken(a, i, b, j);
      if w > 0 {
        ReadShiftStep(a, env, i, b, j, w);
      } else {
        ReadShiftStop(a, env, i, b, j, LexAt(a, i));
      }
    } else {
      assert j == |b|;
    }
  }

  /** The width of the token at `i`, and the suffixes after it still agree. */
  lemma ShiftToken(a: string, i: nat, b: string, j: nat) returns (w: nat)
    requires i < |a| && j <= |b| && a[i..] == b[j..]
    ensures j < |b| && LexAt(a, i) == LexAt(b, j) && w == Width(LexAt(a, i))
    ensures i + w <= |a| && j + w <= |b| && a[i + w..] == b[j + w..]
  {
    assert |a| - i == |b| - j;
    LexShift(a, i, b, j);
    w := Width(LexAt(a, i));
    DropShift(a, i, b, j, w);
  }

  /** A token of positive width: the readings after it agree, so the readings from it do. */
  lemma {:induction false} ReadShiftStep(a: string, env: Env, i: nat, b: string, j: nat, w: nat)
    requires i < |a| && j < |b| && LexAt(a, i) == LexAt(b, j) && w == Width(LexAt(a, i)) && w > 0
    requires i + w <= |a| && j + w <= |b| && a[i + w..] == b[j + w..]
    ensures ReadFrom(a, env, i) == ReadFrom(b, env, j)
    decreases |a| - i, 0
  {
    var t := UnfoldBoth(a, env, i, b, j, w);
    ReadShift(a, env, i + w, b, j + w);
  }

  /** Both readings start with the same token, of width `w`. */
  lemma UnfoldBoth(a: string, env: Env, i: nat, b: string, j: nat, w: nat) returns (t: Token)
    requires i < |a| && j < |b| && LexAt(a, i) == LexAt(b, j) && w == Width(LexAt(a, i)) && w > 0
    requires i + w <= |a| && j + w <= |b|
    ensures ReadFrom(a, env, i + w).expanded <= ReadFrom(a, env, i + w).macros
    ensures ReadFrom(a, env, i) == ReadToken(t, env, ReadFrom(a, env, i + w))
    ensures ReadFrom(b, env, j) == ReadToken(t, env, ReadFrom(b, env, j + w))
  {
    t := LexAt(a, i);
    ReadUnfold(a, env, i);
    ReadUnfold(b, env, j);
  }

  lemma ReadShiftStop(a: string, env: Env, i: nat, b: string, j: nat, t: Token)
    requires i < |a| && j < |b| && LexAt(a, i) == t && LexAt(b, j) == t && Width(t) == 0
    ensures ReadFrom(a, env, i) == ReadFrom(b, env, j)
  {
    ReadUnfold(a, env, i);
    ReadUnfold(b, env, j);
  }

  /** One unfolding of the loop: the iteration at `i`, then the rest. */
  lemma StepUnfolds(mode: Writes, arg: string, env: Env, i: nat, ret: Ret, macros: nat, expanded: nat)
    requires i < |arg| && Fits(mode, ret)
    ensures var st := StepAt(mode, arg, env, i, ret, macros, expanded);
      ExpandFrom(mode, arg, env, i, ret, macros, expanded) ==
      if st.Stop? then st.outcome else ExpandFrom(mode, arg, env, st.i, st.ret, st.macros, st.expanded)
  {
  }

  /** Guarded expansion from a reachable state finishes with the reading of the rest of the argument. */
  predicate GuardedEnds(arg: string, env: Env, i: nat, ret: Ret, macros: nat, expanded: nat)
    requires i <= |arg| && Fits(Guarded, ret)
  {
    Ends(ExpandFrom(Guarded, arg, env, i, ret, macros, expanded), arg, ret, macros, expanded, ReadFrom(arg, env, i))
  }

  /** `o` is what the loop returns from a state with buffer `ret` and counters `macros`, `expanded` when the rest reads as `r`. */
  predicate Ends(o: Outcome, arg: string, ret: Ret, macros: nat, expanded: nat, r: Reading) {
    o == Done(if ret.Null? && r.silent then arg else TextOf(ret) + r.text, macros + r.macros, expanded + r.expanded)
  }

  /**
   * How one token carries the state `ret`, `macros`, `expanded` over to
   * `next`, `macros'`, `expanded'` while the reading `ri` of the argument
   * from the token on is `rk`, the reading after it, behind `value`: an
   * unresolved macro (`kept`) leaves the buffer alone, anything else
   * appends `value` to it.
   */
  predicate Carries(ret: Ret, next: Ret, value: string, macros: nat, expanded: nat, macros': nat, expanded': nat,
                    kept: bool, ri: Reading, rk: Reading)
  {
    && macros <= macros' && expanded <= expanded'
    && if kept then
         next == ret && ri == Reading(rk.text, rk.macros + macros' - macros, rk.expanded + expanded' - expanded, rk.silent)
       else
         next.Allocated? && next.text == TextOf(ret) + value &&
         ri == Reading(value + rk.text, rk.macros + macros' - macros, rk.expanded + expanded' - expanded, false)
  }

  lemma EndsCarried(oi: Outcome, ok: Outcome, arg: string, ret: Ret, next: Ret, value: string,
                    macros: nat, expanded: nat, macros': nat, expanded': nat, kept: bool, ri: Reading, rk: Reading)
    requires oi == ok && Ends(ok, arg, next, macros', expanded', rk)
    requires Carries(ret, next, value, macros, expanded, macros', expanded', kept, ri, rk)
    ensures Ends(oi, arg, ret, macros, expanded, ri)
  {
    if !kept {
      Text.Assoc(TextOf(ret), value, rk.text);
    }
  }

  /** One token of the guarded loop, other than an unterminated macro, and its reading. */
  predicate Advanced(arg: string, env: Env, i: nat, ret: Ret, macros: nat, expanded: nat,
                     k: nat, next: Ret, macros': nat, expanded': nat, value: string, kept: bool)
    requires i < |arg| && Fits(Guarded, ret)
  {
    && i < k <= |arg| && Fits(Guarded, next)
    && ExpandFrom(Guarded, arg, env, i, ret, macros, expanded) == ExpandFrom(Guarded, arg, env, k, next, macros', expanded')
    && Carries(ret, next, value, macros, expanded, macros', expanded', kept, ReadFrom(arg, env, i), ReadFrom(arg, env, k))
  }

  lemma Advance(arg: string, env: Env, i: nat, ret: Ret, macros: nat, expanded: nat)
    returns (k: nat, next: Ret, macros': nat, expanded': nat, value: string, kept: bool)
    requires i < |arg| && Fits(Guarded, ret) && !LexAt(arg, i).Unterminated?
    ensures Advanced(arg, env, i, ret, macros, expanded, k, next, macros', expanded', value, kept)
  {
    var t := LexAt(arg, i);
    if t.Macro? {
      if Classify(t.name, env).Unresolved? {
        k, next, macros', expanded', value, kept := AdvanceUnresolved(arg, env, i, ret, macros, expanded);
      } else {
        k, next, macros', expanded', value, kept := AdvanceMacro(arg, env, i, ret, macros, expanded);
      }
    } else {
      k, next, macros', expanded', value, kept := AdvanceChar(arg, env, i, ret, macros, expanded);
    }
  }

  /**
   * The guarded step over a "%%" or a plain character at `i`, and what it
   * carries into the reading `rk` of the rest.
   */
  lemma CharFacts(arg: string, env: Env, i: nat, ret: Ret, macros: nat, expanded: nat, t: Token, k: nat, rk: Reading)
    returns (next: Ret, value: string)
    requires i < |arg| && Fits(Guarded, ret) && LexAt(arg, i) == t && (t.Escape? || t.Char?) && k == i + Width(t)
    requires rk.expanded <= rk.macros && (rk.silent ==> rk.text == [])
    ensures Fits(Guarded, next)
    ensures StepAt(Guarded, arg, env, i, ret, macros, expanded) == Next(k, next, macros, expanded)
    ensures Carries(ret, next, value, macros, expanded, macros, expanded, false, ReadToken(t, env, rk), rk)
  {
    value := if t.Escape? then "%" else [t.c];
    var w := GrowForChar(ret);
    next := Allocated(w.text + value, w.size);
  }

  /** The same for a closed macro that does not drop out. */
  lemma MacroFacts(arg: string, env: Env, i: nat, ret: Ret, macros: nat, expanded: nat, name: string, k: nat, rk: Reading)
    returns (next: Ret, value: string, expanded': nat)
    requires i < |arg| && Fits(Guarded, ret) && LexAt(arg, i) == Macro(name) && k == i + |name| + 2
    requires !Classify(name, env).Unresolved?
    requires rk.expanded <= rk.macros && (rk.silent ==> rk.text == [])
    ensures Fits(Guarded, next)
    ensures StepAt(Guarded, arg, env, i, ret, macros, expanded) == Next(k, next, macros + 1, expanded')
    ensures Carries(ret, next, value, macros, expanded, macros + 1, expanded', false, ReadToken(Macro(name), env, rk), rk)
  {
    var m := Classify(name, env);
    value := MacroText(m, name, env.pid);
    var g := GrowFor(ret, |value|);
    next := Allocated(g.text + value, g.size);
    expanded' := if m.Resolved? then expanded + 1 else expanded;
  }

  /** The same for an unresolved macro. */
  lemma UnresolvedFacts(arg: string, env: Env, i: nat, ret: Ret, macros: nat, expanded: nat, name: string, k: nat, rk: Reading)
    requires i < |arg| && Fits(Guarded, ret) && LexAt(arg, i) == Macro(name) && k == i + |name| + 2
    requires Classify(name, env).Unresolved?
    requires rk.expanded <= rk.macros && (rk.silent ==> rk.text == [])
    ensures StepAt(Guarded, arg, env, i, ret, macros, expanded) == Next(k, ret, macros + 1, expanded)
    ensures Carries(ret, ret, [], macros, expanded, macros + 1, expanded, true, ReadToken(Macro(name), env, rk), rk)
  {
    Text.AppendEmpty(rk.text);
  }

  /** A "%%" or a plain character appends one character. */
  lemma AdvanceChar(arg: string, env: Env, i: nat, ret: Ret, macros: nat, expanded: nat)
    returns (k: nat, next: Ret, macros': nat, expanded': nat, value: string, kept: bool)
    requires i < |arg| && Fits(Guarded, ret) && (LexAt(arg, i).Escape? || LexAt(arg, i).Char?)
    ensures Advanced(arg, env, i, ret, macros, expanded, k, next, macros', expanded', value, kept)
  {
    var t := LexAt(arg, i);
    k := i + Width(t);
    ReadUnfoldAs(arg, env, i, t, k);
    next, value := CharFacts(arg, env, i, ret, macros, expanded, t, k, ReadFrom(arg, env, k));
    macros', expanded', kept := macros, expanded, false;
    StepUnfolds(Guarded, arg, env, i, ret, macros, expanded);
  }

  /** A closed macro that resolves (or is PID or lazy) appends its text. */
  lemma AdvanceMacro(arg: string, env: Env, i: nat, ret: Ret, macros: nat, expanded: nat)
    returns (k: nat, next: Ret, macros': nat, expanded': nat, value: string, kept: bool)
    requires i < |arg| && Fits(Guarded, ret) && LexAt(arg, i).Macro? && !Classify(LexAt(arg, i).name, env).Unresolved?
    ensures Advanced(arg, env, i, ret, macros, expanded, k, next, macros', expanded', value, kept)
  {
    var name := LexAt(arg, i).name;
    k := i + |name| + 2;
    ReadUnfoldAs(arg, env, i, Macro(name), k);
    next, value, expanded' := MacroFacts(arg, env, i, ret, macros, expanded, name, k, ReadFrom(arg, env, k));
    macros', kept := macros + 1, false;
    StepUnfolds(Guarded, arg, env, i, ret, macros, expanded);
  }

  /** An unresolved macro is only counted. */
  lemma AdvanceUnresolved(arg: string, env: Env, i: nat, ret: Ret, macros: nat, expanded: nat)
    returns (k: nat, next: Ret, macros': nat, expanded': nat, value: string, kept: bool)
    requires i < |arg| && Fits(Guarded, ret) && LexAt(arg, i).Macro? && Classify(LexAt(arg, i).name, env).Unresolved?
    ensures Advanced(arg, env, i, ret, macros, expanded, k, next, macros', expanded', value, kept)
  {
    var name := LexAt(arg, i).name;
    k := i + |name| + 2;
    ReadUnfoldAs(arg, env, i, Macro(name), k);
    UnresolvedFacts(arg, env, i, ret, macros, expanded, name, k, ReadFrom(arg, env, k));
    next, macros', expanded', value, kept := ret, macros + 1, expanded, [], true;
    StepUnfolds(Guarded, arg, env, i, ret, macros, expanded);
  }

  /** At the end of the argument the loop's result is the buffer, or the argument when none was allocated. */
  lemma GuardedAtEnd(arg: string, env: Env, ret: Ret, macros: nat, expanded: nat)
    requires Fits(Guarded, ret)
    ensures GuardedEnds(arg, env, |arg|, ret, macros, expanded)
  {
    Text.AppendEmpty(TextOf(ret));
  }

  /** An unterminated macro ends the result before its '%'. */
  lemma GuardedAtUnterminated(arg: string, env: Env, i: nat, ret: Ret, macros: nat, expanded: nat)
    requires i < |arg| && Fits(Guarded, ret) && LexAt(arg, i).Unterminated?
    ensures GuardedEnds(arg, env, i, ret, macros, expanded)
  {
    StepUnfolds(Guarded, arg, env, i, ret, macros, expanded);
    ReadUnfold(arg, env, i);
    Text.AppendEmpty(TextOf(ret));
  }

  lemma {:induction false} GuardedFrom(arg: string, env: Env, i: nat, ret: Ret, macros: nat, expanded: nat)
    requires i <= |arg| && Fits(Guarded, ret)
    ensures GuardedEnds(arg, env, i, ret, macros, expanded)
    decreases |arg| - i
  {
    if i == |arg| {
      GuardedAtEnd(arg, env, ret, macros, expanded);
    } else if LexAt(arg, i).Unterminated? {
      GuardedAtUnterminated(arg, env, i, ret, macros, expanded);
    } else {
      var k, next, macros', expanded', value, kept := Advance(arg, env, i, ret, macros, expanded);
      GuardedFrom(arg, env, k, next, macros', expanded');
      EndsCarried(ExpandFrom(Guarded, arg, env, i, ret, macros, expanded),
                  ExpandFrom(Guarded, arg, env, k, next, macros', expanded'),
                  arg, ret, next, value, macros, expanded, macros', expanded', kept,
                  ReadFrom(arg, env, i), ReadFrom(arg, env, k));
    }
  }

  /**
   * The corrected expander never crashes and returns the reading of the
   * argument; when nothing was ever appended it returns the argument itself
   * (main.c:257-259).
   */
  lemma GuardedExpansion(arg: string, env: Env)
    ensures var r := Read(arg, env);
      Expand(Guarded, arg, env) == Done(if r.silent then arg else r.text, r.macros, r.expanded)
  {
    GuardedFrom(arg, env, 0, Null, 0, 0);
    Text.AppendEmpty(Read(arg, env).text);
  }

  /** The text the corrected expander returns. */
  function Value(arg: string, env: Env): (s: string)
    ensures Expand(Guarded, arg, env).Done? && Expand(Guarded, arg, env).value == s
  {
    GuardedExpansion(arg, env);
    var r := Read(arg, env);
    if r.silent then arg else r.text
  }

  /** Every closed macro from `i` on resolves through the variable lookup. */
  predicate AllResolvedFrom(arg: string, env: Env, i: nat)
    requires i <= |arg|
    decreases |arg| - i
  {
    if i == |arg| then true
    else match LexAt(arg, i)
      case Escape => AllResolvedFrom(arg, env, i + 2)
      case Unterminated => true
      case Macro(name) => Classify(name, env).Resolved? && AllResolvedFrom(arg, env, i + |name| + 2)
      case Char(_) => AllResolvedFrom(arg, env, i + 1)
  }

  predicate AllResolved(arg: string, env: Env) {
    AllResolvedFrom(arg, env, 0)
  }

  lemma {:induction false} CountsEqualFrom(arg: string, env: Env, i: nat)
    requires i <= |arg|
    ensures ReadFrom(arg, env, i).expanded == ReadFrom(arg, env, i).macros <==> AllResolvedFrom(arg, env, i)
    decreases |arg| - i
  {
    if i < |arg| {
      match LexAt(arg, i)
      case Escape => CountsEqualFrom(arg, env, i + 2);
      case Unterminated =>
      case Macro(name) => CountsEqualFrom(arg, env, i + |name| + 2);
      case Char(_) => CountsEqualFrom(arg, env, i + 1);
    }
  }

  /**
   * The two counters agree exactly when every closed macro was resolved by
   * the variable lookup: `%PID%`, lazily kept and unresolved macros all
   * leave main.c:879's `isexpanded` clear.
   */
  lemma FullyExpanded(arg: string, env: Env)
    ensures Expand(Guarded, arg, env).Done?
    ensures Expand(Guarded, arg, env).expanded == Expand(Guarded, arg, env).macros <==> AllResolved(arg, env)
  {
    GuardedExpansion(arg, env);
    CountsEqualFrom(arg, env, 0);
  }

  // ---------------------------------------------------------------------
  // The source's expander against the corrected one.

  /** One iteration in both modes from buffers holding the same text, unless the source's crashes. */
  lemma StepsAgree(arg: string, env: Env, i: nat, r1: Ret, r2: Ret, macros: nat, expanded: nat)
    requires i < |arg| && Fits(AsWritten, r1) && Fits(Guarded, r2)
    requires r1.Null? == r2.Null? && TextOf(r1) == TextOf(r2)
    ensures var s1 := StepAt(AsWritten, arg, env, i, r1, macros, expanded);
      var s2 := StepAt(Guarded, arg, env, i, r2, macros, expanded);
      (s1.Stop? && s1.outcome.Done? ==> s1 == s2) &&
      (s1.Next? ==> s2.Next? && s1.i == s2.i && s1.macros == s2.macros && s1.expanded == s2.expanded &&
                    s1.ret.Null? == s2.ret.Null? && TextOf(s1.ret) == TextOf(s2.ret))
  {
  }

  /** Two runs that have written the same text stay in step as long as the source's run does not crash. */
  lemma {:induction false} AsWrittenFrom(arg: string, env: Env, i: nat, r1: Ret, r2: Ret, macros: nat, expanded: nat)
    requires i <= |arg| && Fits(AsWritten, r1) && Fits(Guarded, r2)
    requires r1.Null? == r2.Null? && TextOf(r1) == TextOf(r2)
    requires ExpandFrom(AsWritten, arg, env, i, r1, macros, expanded).Done?
    ensures ExpandFrom(AsWritten, arg, env, i, r1, macros, expanded) ==
            ExpandFrom(Guarded, arg, env, i, r2, macros, expanded)
    decreases |arg| - i
  {
    if i < |arg| {
      var s1 := StepAt(AsWritten, arg, env, i, r1, macros, expanded);
      var s2 := StepAt(Guarded, arg, env, i, r2, macros, expanded);
      StepUnfolds(AsWritten, arg, env, i, r1, macros, expanded);
      StepUnfolds(Guarded, arg, env, i, r2, macros, expanded);
      StepsAgree(arg, env, i, r1, r2, macros, expanded);
      if s1.Next? {
        AsWrittenFrom(arg, env, s1.i, s1.ret, s2.ret, s1.macros, s1.expanded);
      }
    }
  }

  /** Whenever the source's expander does not crash, it returns what the corrected one returns. */
  lemma AsWrittenAgrees(arg: string, env: Env)
    requires Expand(AsWritten, arg, env).Done?
    ensures Expand(AsWritten, arg, env) == Expand(Guarded, arg, env)
  {
    AsWrittenFrom(arg, env, 0, Null, Null, 0, 0);
  }

  /** From `i` on, `arg` holds neither "%%" nor an unterminated macro. */
  predicate CleanFrom(arg: string, i: nat)
    requires i <= |arg|
    decreases |arg| - i
  {
    if i == |arg| then true
    else match LexAt(arg, i)
      case Macro(name) => CleanFrom(arg, i + |name| + 2)
      case Char(_) => CleanFrom(arg, i + 1)
      case _ => false
  }

  predicate Clean(arg: string) {
    CleanFrom(arg, 0)
  }

  /** Closed macros and ordinary characters are handled the same way in both modes. */
  lemma StepModeFree(arg: string, env: Env, i: nat, ret: Ret, macros: nat, expanded: nat)
    requires i < |arg| && Fits(Guarded, ret) && (LexAt(arg, i).Macro? || LexAt(arg, i).Char?)
    ensures StepAt(AsWritten, arg, env, i, ret, macros, expanded) == StepAt(Guarded, arg, env, i, ret, macros, expanded)
  {
  }

  lemma {:induction false} CleanSame(arg: string, env: Env, i: nat, ret: Ret, macros: nat, expanded: nat)
    requires i <= |arg| && Fits(Guarded, ret) && CleanFrom(arg, i)
    ensures ExpandFrom(AsWritten, arg, env, i, ret, macros, expanded) ==
            ExpandFrom(Guarded, arg, env, i, ret, macros, expanded)
    decreases |arg| - i
  {
    if i < |arg| {
      var k, next, macros', expanded' := CleanStep(arg, env, i, ret, macros, expanded);
      CleanSame(arg, env, k, next, macros', expanded');
    }
  }

  /** One iteration over a closed macro or a plain character, identical in both modes. */
  lemma CleanStep(arg: string, env: Env, i: nat, ret: Ret, macros: nat, expanded: nat)
    returns (k: nat, next: Ret, macros': nat, expanded': nat)
    requires i < |arg| && Fits(Guarded, ret) && CleanFrom(arg, i)
    ensures i < k <= |arg| && Fits(Guarded, next) && CleanFrom(arg, k)
    ensures ExpandFrom(AsWritten, arg, env, i, ret, macros, expanded) == ExpandFrom(AsWritten, arg, env, k, next, macros', expanded')
    ensures ExpandFrom(Guarded, arg, env, i, ret, macros, expanded) == ExpandFrom(Guarded, arg, env, k, next, macros', expanded')
  {
    var st := CleanNext(arg, env, i, ret, macros, expanded);
    StepUnfolds(AsWritten, arg, env, i, ret, macros, expanded);
    StepUnfolds(Guarded, arg, env, i, ret, macros, expanded);
    k, next, macros', expanded' := st.i, st.ret, st.macros, st.expanded;
  }

  /** On a clean suffix both modes take the same step, and it leads to a clean suffix. */
  lemma CleanNext(arg: string, env: Env, i: nat, ret: Ret, macros: nat, expanded: nat) returns (st: Step)
    requires i < |arg| && Fits(Guarded, ret) && CleanFrom(arg, i)
    ensures st == StepAt(Guarded, arg, env, i, ret, macros, expanded)
    ensures st == StepAt(AsWritten, arg, env, i, ret, macros, expanded)
    ensures st.Next? && i < st.i <= |arg| && Fits(Guarded, st.ret) && CleanFrom(arg, st.i)
  {
    st := StepAt(Guarded, arg, env, i, ret, macros, expanded);
    StepModeFree(arg, env, i, ret, macros, expanded);
  }

  /**
   * The source's expander can only crash on "%%" or on an unterminated
   * macro: without them it behaves exactly as the corrected one.
   */
  lemma CleanNeverCrashes(arg: string, env: Env)
    requires Clean(arg)
    ensures Expand(AsWritten, arg, env) == Expand(Guarded, arg, env)
  {
    CleanSame(arg, env, 0, Null, 0, 0);
  }

  // ---------------------------------------------------------------------
  // Properties of the reading.

  /** Characters other than '%' are copied through. */
  lemma {:induction false} ReadPlainFrom(p: string, s: string, env: Env, k: nat)
    requires k <= |p| && '%' !in p
    ensures var r := Read(s, env);
      ReadFrom(p + s, env, k) == Reading(p[k..] + r.text, r.macros, r.expanded, k == |p| && r.silent)
    decreases |p| - k
  {
    var r := Read(s, env);
    if k == |p| {
      assert (p + s)[|p|..] == s[0..];
      ReadShift(p + s, env, |p|, s, 0);
      assert p[k..] == [];
      Text.AppendEmpty(r.text);
    } else {
      assert (p + s)[k] == p[k];
      assert p[k] in p;
      assert LexAt(p + s, k) == Char(p[k]);
      ReadPlainFrom(p, s, env, k + 1);
      assert p[k..] == [p[k]] + p[k + 1..];
      Text.Assoc([p[k]], p[k + 1..], r.text);
    }
  }

  lemma ReadPlainPrefix(p: string, s: string, env: Env)
    requires '%' !in p
    ensures var r := Read(s, env);
      Read(p + s, env) == Reading(p + r.text, r.macros, r.expanded, p == [] && r.silent)
  {
    ReadPlainFrom(p, s, env, 0);
    assert p[0..] == p;
  }

  /** "%%" reads as one '%'. */
  lemma ReadEscape(rest: string, env: Env)
    ensures var r := Read(rest, env);
      Read("%%" + rest, env) == Reading("%" + r.text, r.macros, r.expanded, false)
  {
    var s := "%%" + rest;
    assert s[0] == '%' && s[1] == '%';
    assert LexAt(s, 0) == Escape;
    assert s[2..] == rest[0..];
    ReadShift(s, env, 2, rest, 0);
  }

  /** A closed macro reads as its text. */
  lemma ReadMacro(name: string, rest: string, env: Env)
    requires '%' !in name && name != []
    ensures var r := Read(rest, env); var m := Classify(name, env);
      Read("%" + name + "%" + rest, env) ==
      Reading(MacroText(m, name, env.pid) + r.text, r.macros + 1,
              if m.Resolved? then r.expanded + 1 else r.expanded, m.Unresolved? && r.silent)
  {
    var s := "%" + name + "%" + rest;
    assert s[0] == '%';
    assert s[1] == name[0];
    assert name[0] in name;
    forall x | 1 <= x < |name| + 1 ensures s[x] != '%' {
      assert s[x] == name[x - 1];
      assert name[x - 1] in name;
    }
    assert s[|name| + 1] == '%';
    NextPercentUnique(s, 1, |name| + 1);
    assert s[1..|name| + 1] == name;
    assert LexAt(s, 0) == Macro(name);
    assert s[|name| + 2..] == rest[0..];
    ReadShift(s, env, |name| + 2, rest, 0);
  }

  /** A text without '%' is its own reading, with no macros. */
  lemma NoPercentReading(s: string, env: Env)
    requires '%' !in s
    ensures Read(s, env) == Reading(s, 0, 0, s == [])
  {
    ReadPlainPrefix(s, [], env);
    assert s + [] == s;
  }

  lemma {:induction false} NoPercentClean(s: string, k: nat)
    requires k <= |s| && '%' !in s
    ensures CleanFrom(s, k)
    decreases |s| - k
  {
    if k < |s| {
      assert s[k] in s;
      NoPercentClean(s, k + 1);
    }
  }

  /**
   * An argument with no '%' expands to itself with both counters at zero,
   * in the source as in the corrected expander (main.c:252-265, main.c:356-364).
   */
  lemma NoPercentUnchanged(mode: Writes, arg: string, env: Env)
    requires '%' !in arg
    ensures Expand(mode, arg, env) == Done(arg, 0, 0)
  {
    NoPercentReading(arg, env);
    GuardedExpansion(arg, env);
    NoPercentClean(arg, 0);
    CleanNeverCrashes(arg, env);
  }

  /** "%%" stands for one '%' (main.c:268-271). */
  lemma EscapeYieldsPercent(p: string, rest: string, env: Env)
    requires '%' !in p
    ensures var r := Read(rest, env);
      Expand(Guarded, p + "%%" + rest, env) == Done(p + "%" + r.text, r.macros, r.expanded)
  {
    var s := "%%" + rest;
    var r := Read(rest, env);
    ReadEscape(rest, env);
    ReadPlainPrefix(p, s, env);
    Text.Assoc(p, "%%", rest);
    Text.Assoc(p, "%", r.text);
    GuardedExpansion(p + s, env);
  }

  /** The reading of `p` followed by a closed macro and more text. */
  lemma ReadAroundMacro(p: string, name: string, rest: string, env: Env)
    requires '%' !in p && '%' !in name && name != []
    ensures var r := Read(rest, env); var m := Classify(name, env);
      Read(p + "%" + name + "%" + rest, env) ==
      Reading(p + (MacroText(m, name, env.pid) + r.text), r.macros + 1,
              if m.Resolved? then r.expanded + 1 else r.expanded, p == [] && m.Unresolved? && r.silent)
  {
    var s := "%" + name + "%" + rest;
    ReadMacro(name, rest, env);
    ReadPlainPrefix(p, s, env);
    MacroConcat(p, name, rest);
  }

  lemma MacroConcat(p: string, name: string, rest: string)
    ensures p + "%" + name + "%" + rest == p + ("%" + name + "%" + rest)
  {
  }

  /**
   * A closed macro whose variable resolves is replaced by its value and
   * raises both counters by one (main.c:290-300, main.c:318-346).
   */
  lemma ResolvedMacroReplaced(p: string, name: string, rest: string, env: Env, v: string)
    requires '%' !in p && '%' !in name && name != []
    requires Classify(name, env) == Resolved(v)
    ensures var r := Read(rest, env);
      Expand(Guarded, p + "%" + name + "%" + rest, env) == Done(p + v + r.text, r.macros + 1, r.expanded + 1)
  {
    ReadAroundMacro(p, name, rest, env);
    Text.Assoc(p, v, Read(rest, env).text);
    GuardedExpansion(p + "%" + name + "%" + rest, env);
  }

  /**
   * An unresolved macro contributes nothing and counts only as a macro
   * (main.c:318-330); if nothing at all is appended the argument is
   * returned unchanged (main.c:257-259).
   */
  lemma UnresolvedMacroDropped(p: string, name: string, rest: string, env: Env)
    requires '%' !in p && '%' !in name && name != []
    requires Classify(name, env) == Unresolved
    ensures var r := Read(rest, env); var arg := p + "%" + name + "%" + rest;
      Expand(Guarded, arg, env) == Done(if p == [] && r.silent then arg else p + r.text, r.macros + 1, r.expanded)
  {
    ReadAroundMacro(p, name, rest, env);
    Text.AppendEmpty(Read(rest, env).text);
    GuardedExpansion(p + "%" + name + "%" + rest, env);
  }

  /**
   * `%PID%` becomes the decimal pid (main.c:303-312) and is counted as a
   * macro but not as an expansion, so main.c:879 never marks such an
   * argument expanded.
   */
  lemma PidMacroNotCounted(p: string, rest: string, env: Env)
    requires '%' !in p
    ensures var r := Read(rest, env);
      Expand(Guarded, p + "%PID%" + rest, env) == Done(p + Text.Decimal(env.pid) + r.text, r.macros + 1, r.expanded)
    ensures Expand(Guarded, p + "%PID%" + rest, env).expanded < Expand(Guarded, p + "%PID%" + rest, env).macros
  {
    assert "%PID%" + rest == "%" + "PID" + "%" + rest;
    assert p + "%PID%" + rest == p + "%" + "PID" + "%" + rest;
    assert IsPid("PID");
    ReadAroundMacro(p, "PID", rest, env);
    Text.Assoc(p, Text.Decimal(env.pid), Read(rest, env).text);
    GuardedExpansion(p + "%PID%" + rest, env);
  }

  /**
   * With the lazy bit set, a macro whose name starts with an upper-case
   * letter is kept verbatim and not counted as an expansion (main.c:313-317).
   */
  lemma LazyMacroKept(p: string, name: string, rest: string, env: Env)
    requires '%' !in p && '%' !in name && name != [] && !IsPid(name)
    requires 'A' <= name[0] <= 'Z' && Lazy(env.exceptionFlags)
    ensures var r := Read(rest, env);
      Expand(Guarded, p + "%" + name + "%" + rest, env) == Done(p + ("%" + name + "%") + r.text, r.macros + 1, r.expanded)
  {
    ReadAroundMacro(p, name, rest, env);
    Text.Assoc(p, "%" + name + "%", Read(rest, env).text);
    GuardedExpansion(p + "%" + name + "%" + rest, env);
  }

  lemma {:induction false} PlainThenUnterminated(mode: Writes, arg: string, env: Env, i: nat, u: nat,
                                                 ret: Ret, macros: nat, expanded: nat)
    requires i <= u < |arg| && arg[u] == '%' && Fits(Guarded, ret)
    requires forall x :: i <= x < |arg| && x != u ==> arg[x] != '%'
    requires i < u || ret.Allocated?
    ensures ExpandFrom(mode, arg, env, i, ret, macros, expanded) == Done(TextOf(ret) + arg[i..u], macros, expanded)
    decreases u - i
  {
    if i == u {
      UnterminatedHere(mode, arg, env, i, ret, macros, expanded);
    } else {
      var g := GrowForChar(ret);
      var next := Allocated(g.text + [arg[i]], g.size);
      PlainStep(mode, arg, env, i, u, ret, macros, expanded);
      PlainThenUnterminated(mode, arg, env, i + 1, u, next, macros, expanded);
      PlainPrefix(TextOf(ret), arg, i, u);
    }
  }

  lemma UnterminatedHere(mode: Writes, arg: string, env: Env, i: nat, ret: Ret, macros: nat, expanded: nat)
    requires i < |arg| && arg[i] == '%' && Fits(Guarded, ret) && ret.Allocated?
    requires forall x :: i < x < |arg| ==> arg[x] != '%'
    ensures ExpandFrom(mode, arg, env, i, ret, macros, expanded) == Done(TextOf(ret) + arg[i..i], macros, expanded)
  {
    StepUnfolds(mode, arg, env, i, ret, macros, expanded);
    NextPercentUnique(arg, i + 1, |arg|);
    assert LexAt(arg, i) == Unterminated;
    assert arg[i..i] == [];
    Text.AppendEmpty(TextOf(ret));
  }

  lemma PlainStep(mode: Writes, arg: string, env: Env, i: nat, u: nat, ret: Ret, macros: nat, expanded: nat)
    requires i < u < |arg| && arg[i] != '%' && Fits(Guarded, ret)
    ensures var g := GrowForChar(ret); var next := Allocated(g.text + [arg[i]], g.size);
      Fits(Guarded, next) && next.text == TextOf(ret) + [arg[i]] &&
      ExpandFrom(mode, arg, env, i, ret, macros, expanded) == ExpandFrom(mode, arg, env, i + 1, next, macros, expanded)
  {
    assert LexAt(arg, i) == Char(arg[i]);
    var g := GrowForChar(ret);
    assert StepAt(mode, arg, env, i, ret, macros, expanded) == Next(i + 1, Allocated(g.text + [arg[i]], g.size), macros, expanded);
    StepUnfolds(mode, arg, env, i, ret, macros, expanded);
  }

  lemma PlainPrefix(t: string, arg: string, i: nat, u: nat)
    requires i < u <= |arg|
    ensures t + arg[i..u] == (t + [arg[i]]) + arg[i + 1..u]
  {
    assert arg[i..u] == [arg[i]] + arg[i + 1..u];
    Text.Assoc(t, [arg[i]], arg[i + 1..u]);
  }

  /**
   * An unterminated macro ends the expansion with the text accumulated
   * before its '%' (main.c:281-288); the source survives it only when that
   * text is not empty.
   */
  lemma UnterminatedEnds(mode: Writes, p: string, name: string, env: Env)
    requires '%' !in p && '%' !in name
    requires mode == Guarded || p != []
    ensures Expand(mode, p + "%" + name, env) == Done(p, 0, 0)
  {
    var arg := p + "%" + name;
    forall x | 0 <= x < |arg| && x != |p| ensures arg[x] != '%' {
      if x < |p| {
        assert arg[x] == p[x] && p[x] in p;
      } else {
        assert arg[x] == name[x - |p| - 1] && name[x - |p| - 1] in name;
      }
    }
    if p == [] {
      StepUnfolds(mode, arg, env, 0, Null, 0, 0);
      NextPercentUnique(arg, 1, |arg|);
      assert LexAt(arg, 0) == Unterminated;
    } else {
      PlainThenUnterminated(mode, arg, env, 0, |p|, Null, 0, 0);
      assert arg[0..|p|] == p;
    }
  }

  // ---------------------------------------------------------------------
  // The source's unchecked writes.

  /** main.c:269 writes through `ret` while it is still NULL when the argument starts with "%%". */
  lemma LeadingEscapeWritesNull(rest: string, env: Env)
    ensures Expand(AsWritten, "%%" + rest, env) == Crashed(NullWrite, 0)
  {
    var arg := "%%" + rest;
    assert arg[0] == '%' && arg[1] == '%';
    assert LexAt(arg, 0) == Escape;
    StepUnfolds(AsWritten, arg, env, 0, Null, 0, 0);
  }

  /** main.c:282 writes through `ret` while it is still NULL for a lone unterminated macro. */
  lemma BareUnterminatedWritesNull(name: string, env: Env)
    requires '%' !in name
    ensures Expand(AsWritten, "%" + name, env) == Crashed(NullWrite, 0)
  {
    var arg := "%" + name;
    forall x | 1 <= x < |arg| ensures arg[x] != '%' {
      assert arg[x] == name[x - 1] && name[x - 1] in name;
    }
    NextPercentUnique(arg, 1, |arg|);
    assert LexAt(arg, 0) == Unterminated;
    StepUnfolds(AsWritten, arg, env, 0, Null, 0, 0);
  }

  function Percents(n: nat): (s: string)
    ensures |s| == n && forall x :: 0 <= x < n ==> s[x] == '%'
  {
    seq(n, _ => '%')
  }

  lemma {:induction false} EscapeRun(arg: string, env: Env, i: nat, t: string, size: nat, k: nat,
                                     macros: nat, expanded: nat)
    requires i + 2 * k <= |arg| && forall x :: i <= x < i + 2 * k ==> arg[x] == '%'
    requires |t| + k <= size
    ensures ExpandFrom(AsWritten, arg, env, i, Allocated(t, size), macros, expanded) ==
            ExpandFrom(AsWritten, arg, env, i + 2 * k, Allocated(t + Percents(k), size), macros, expanded)
    decreases k
  {
    if k == 0 {
      Text.AppendEmpty(t);
      assert Percents(0) == [];
    } else {
      assert LexAt(arg, i) == Escape;
      StepUnfolds(AsWritten, arg, env, i, Allocated(t, size), macros, expanded);
      EscapeRun(arg, env, i + 2, t + "%", size, k - 1, macros, expanded);
      PercentsCons(k);
      Text.Assoc(t, "%", Percents(k - 1));
    }
  }

  lemma PercentsCons(k: nat)
    requires k > 0
    ensures "%" + Percents(k - 1) == Percents(k)
  {
  }

  /**
   * main.c:269 does not grow the buffer: after one ordinary character
   * (which allocates 1026 bytes), 1025 escaped percents fill the buffer
   * and the terminating NUL of main.c:262 lands one byte past its end.
   */
  lemma EscapeRunOverflows(env: Env)
    ensures Expand(AsWritten, "a" + Percents(2050), env) == Crashed(OutOfBounds, 2051)
  {
    var arg := "a" + Percents(2050);
    assert arg[0] == 'a';
    assert LexAt(arg, 0) == Char('a');
    StepUnfolds(AsWritten, arg, env, 0, Null, 0, 0);
    assert [] + ['a'] == "a";
    forall x | 1 <= x < 1 + 2 * 1025 ensures arg[x] == '%' {
      assert arg[x] == Percents(2050)[x - 1];
    }
    EscapeRun(arg, env, 1, "a", 1026, 1025, 0, 0);
  }
}
