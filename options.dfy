/**
 * The long-option table of main.c:40-57, the lookup of a raw option value by
 * its long name (`parameter_get`, main.c:183-206) and the construction of the
 * short-option string handed to getopt_long (main.c:533-553).
 */
module Options {
  import opened Wrappers
  import Text

  // Bit flags and table size (ctx.h:31-34).
  const OPTION_FLAGS: nat := 1024
  const OPTION_LONGOPTONLY: nat := 512
  const OPTION_CONFIGONLY: nat := 256

  // Option identifiers (ctx.h:35-51): a short option letter, or a number with
  // OPTION_LONGOPTONLY set for options that have no letter.
  const HELP: nat := 'h' as nat
  const SHOW_VERSION: nat := 'V' as nat
  const DEBUG: nat := 'd' as nat
  const CONFIG_FILE: nat := 'c' as nat
  const CONFIG_GROUP: nat := 'K' as nat
  const VMS_MIN: nat := 'm' as nat
  const VMS_MAX: nat := 'M' as nat
  const VMS_SPARE_MIN: nat := 's' as nat
  const VMS_SPARE_MAX: nat := 'S' as nat
  const KILL_ON_DISCONNECT: nat := 'r' as nat
  const LISTEN: nat := 'L' as nat
  const OUTPUT_METHOD: nat := 'o' as nat
  const CONFIG_GROUP_INHERITS: nat := 0 + OPTION_LONGOPTONLY
  const KVM_ARGS: nat := 1 + OPTION_LONGOPTONLY

  /** The size of the buffer main.c:533 reserves for the option string. */
  const OPTSTRING_SIZE: nat := (('z' as nat - 'a' as nat + 1) * 3 + '9' as nat - '0' as nat + 1) * 3 + 1

  datatype HasArg = NoArgument | RequiredArgument | OptionalArgument

  /** One entry of `struct option` (the `flag` pointer is always NULL here). */
  datatype LongOption = LongOption(name: string, hasArg: HasArg, val: nat)

  /** main.c:40-57, without the terminating all-zero entry. */
  const LongOptions: seq<LongOption> := [
    LongOption("version", OptionalArgument, SHOW_VERSION),
    LongOption("help", OptionalArgument, HELP),
    LongOption("debug", OptionalArgument, DEBUG),
    LongOption("config-file", RequiredArgument, CONFIG_FILE),
    LongOption("config-group", RequiredArgument, CONFIG_GROUP),
    LongOption("config-group-inherits", RequiredArgument, CONFIG_GROUP_INHERITS),
    LongOption("min-vms", RequiredArgument, VMS_MIN),
    LongOption("max-vms", RequiredArgument, VMS_MAX),
    LongOption("min-spare", RequiredArgument, VMS_SPARE_MIN),
    LongOption("max-spare", RequiredArgument, VMS_SPARE_MAX),
    LongOption("kill-vm-on-disconnect", RequiredArgument, KILL_ON_DISCONNECT),
    LongOption("listen", RequiredArgument, LISTEN),
    LongOption("output-method", RequiredArgument, OUTPUT_METHOD)
  ]

  /** `v & bit` for a power of two `bit`. */
  predicate HasBit(v: nat, bit: nat)
    requires bit > 0
  {
    (v / bit) % 2 == 1
  }

  /** Whether an option gets a letter in the short-option string (main.c:538). */
  predicate HasShort(o: LongOption) {
    !HasBit(o.val, OPTION_CONFIGONLY) && !HasBit(o.val, OPTION_LONGOPTONLY)
  }

  /** `val & 0xff`, the option letter. */
  function Short(o: LongOption): char {
    (o.val % 256) as char
  }

  /**
   * What one table entry contributes to the short-option string (main.c:538-548):
   * the letter of an option with a short form, then one ':' per level of argument it takes.
   */
  function Chunk(o: LongOption): (r: string)
    ensures r == [] <==> !HasShort(o)
    ensures r != [] ==> r[0] == Short(o) && forall k :: 1 <= k < |r| ==> r[k] == ':'
    ensures HasShort(o) ==> |r| == 1 + (match o.hasArg case NoArgument => 0 case RequiredArgument => 1 case OptionalArgument => 2)
  {
    if !HasShort(o) then []
    else [Short(o)] + match o.hasArg
      case NoArgument => ""
      case RequiredArgument => ":"
      case OptionalArgument => "::"
  }

  function OptString(opts: seq<LongOption>): string {
    if opts == [] then [] else Chunk(opts[0]) + OptString(opts[1..])
  }

  lemma {:induction false} OptStringAppend(a: seq<LongOption>, b: seq<LongOption>)
    ensures OptString(a + b) == OptString(a) + OptString(b)
    decreases |a|
  {
    if a == [] {
      assert a + b == b && OptString(a) == [];
      Text.AppendEmpty(OptString(b));
    } else {
      OptStringAppendCons(a, b);
    }
  }

  lemma {:induction false} OptStringAppendCons(a: seq<LongOption>, b: seq<LongOption>)
    requires a != []
    ensures OptString(a + b) == OptString(a) + OptString(b)
    decreases |a|, 0
  {
    ConsSplit(a, b);
    OptStringAppend(a[1..], b);
    Text.Assoc(Chunk(a[0]), OptString(a[1..]), OptString(b));
  }

  lemma ConsSplit(a: seq<LongOption>, b: seq<LongOption>)
    requires a != []
    ensures OptString(a + b) == Chunk(a[0]) + OptString(a[1..] + b)
  {
    assert (a + b)[0] == a[0] && (a + b)[1..] == a[1..] + b;
  }

  /** One more entry adds its chunk at the end. */
  lemma OptStringSnoc(opts: seq<LongOption>, k: nat)
    requires k < |opts|
    ensures OptString(opts[..k + 1]) == OptString(opts[..k]) + Chunk(opts[k])
  {
    assert opts[..k + 1] == opts[..k] + [opts[k]];
    OptStringAppend(opts[..k], [opts[k]]);
    assert OptString([opts[k]]) == Chunk(opts[k]) + OptString([]);
    Text.AppendEmpty(Chunk(opts[k]));
  }

  /** Writes one entry's contribution at `p` (main.c:539-547) and returns the advanced pointer. */
  method PutChunk(buf: array<char>, p: nat, o: LongOption) returns (q: nat)
    requires p + 3 <= buf.Length
    modifies buf
    ensures q == p + |Chunk(o)| && q <= p + 3
    ensures buf[..q] == old(buf[..p]) + Chunk(o)
  {
    q := p;
    if HasShort(o) {
      buf[q] := Short(o);
      q := q + 1;
      if o.hasArg == RequiredArgument {
        buf[q] := ':';
        q := q + 1;
      }
      if o.hasArg == OptionalArgument {
        buf[q] := ':';
        q := q + 1;
        buf[q] := ':';
        q := q + 1;
      }
    }
  }

  /**
   * main.c:533-553: fills the alloca'd buffer through a running pointer and
   * terminates it with NUL. Every write stays inside the buffer because each
   * entry contributes at most three characters.
   */
  method BuildOptString(opts: seq<LongOption>) returns (optstring: string)
    requires 3 * |opts| < OPTSTRING_SIZE
    ensures optstring == OptString(opts)
    ensures |optstring| <= 3 * |opts|
  {
    var buf := new char[OPTSTRING_SIZE];
    var p: nat := 0;
    var k := 0;
    while k < |opts|
      invariant 0 <= k <= |opts| && p <= 3 * k
      invariant buf[..p] == OptString(opts[..k])
    {
      p := PutChunk(buf, p, opts[k]);
      OptStringSnoc(opts, k);
      k := k + 1;
    }
    buf[p] := 0 as char;
    assert opts[..k] == opts;
    optstring := buf[..p];
  }

  /**
   * How getopt reads a short-option string: the first occurrence of the
   * letter, followed by ':' for a required and '::' for an optional argument.
   */
  function ArgKind(s: string, c: char): Option<HasArg> {
    if s == [] then None
    else if s[0] == c then
      Some(if |s| > 1 && s[1] == ':' then
             (if |s| > 2 && s[2] == ':' then OptionalArgument else RequiredArgument)
           else NoArgument)
    else ArgKind(s[1..], c)
  }

  /** A table whose short options getopt can tell apart. */
  predicate ShortsDistinct(opts: seq<LongOption>) {
    && (forall a :: 0 <= a < |opts| && HasShort(opts[a]) ==> Short(opts[a]) != ':')
    && (forall a, b :: 0 <= a < b < |opts| && HasShort(opts[a]) && HasShort(opts[b]) ==>
          Short(opts[a]) != Short(opts[b]))
  }

  lemma {:induction false} ArgKindSkip(x: string, rest: string, c: char)
    requires c !in x
    ensures ArgKind(x + rest, c) == ArgKind(rest, c)
    decreases |x|
  {
    if x != [] {
      assert (x + rest)[0] == x[0] && x[0] != c;
      assert (x + rest)[1..] == x[1..] + rest;
      ArgKindSkip(x[1..], rest, c);
    } else {
      assert x + rest == rest;
    }
  }

  lemma ShortsDistinctTail(opts: seq<LongOption>)
    requires opts != [] && ShortsDistinct(opts)
    ensures ShortsDistinct(opts[1..])
  {
    var rest := opts[1..];
    forall a | 0 <= a < |rest| && HasShort(rest[a]) ensures Short(rest[a]) != ':' {
      assert rest[a] == opts[a + 1];
    }
    forall a, b | 0 <= a < b < |rest| && HasShort(rest[a]) && HasShort(rest[b])
      ensures Short(rest[a]) != Short(rest[b])
    {
      assert rest[a] == opts[a + 1] && rest[b] == opts[b + 1];
    }
  }

  lemma {:induction false} OptStringHead(opts: seq<LongOption>)
    requires ShortsDistinct(opts)
    ensures OptString(opts) == [] || OptString(opts)[0] != ':'
    decreases |opts|
  {
    if opts != [] {
      ShortsDistinctTail(opts);
      OptStringHead(opts[1..]);
    }
  }

  /**
   * The short-option string is read back by getopt exactly as the table says:
   * each option with a letter is found with its own argument kind.
   */
  lemma {:induction false} OptStringArgKind(opts: seq<LongOption>, k: nat)
    requires k < |opts| && HasShort(opts[k]) && ShortsDistinct(opts)
    ensures ArgKind(OptString(opts), Short(opts[k])) == Some(opts[k].hasArg)
    decreases |opts|
  {
    var rest := opts[1..];
    ShortsDistinctTail(opts);
    assert OptString(opts) == Chunk(opts[0]) + OptString(rest);
    if k == 0 {
      OptStringHead(rest);
      ChunkArgKind(opts[0], OptString(rest));
    } else {
      assert rest[k - 1] == opts[k];
      ChunkSkipped(opts, k);
      ArgKindSkip(Chunk(opts[0]), OptString(rest), Short(opts[k]));
      OptStringArgKind(rest, k - 1);
    }
  }

  /**
   * The program's own table fits the buffer of main.c:533, and every option
   * with a letter is read back by getopt with the argument kind the table gives it.
   */
  lemma LongOptionsReadBack(k: nat)
    requires k < |LongOptions| && HasShort(LongOptions[k])
    ensures 3 * |LongOptions| < OPTSTRING_SIZE
    ensures ArgKind(OptString(LongOptions), Short(LongOptions[k])) == Some(LongOptions[k].hasArg)
  {
    TableShortsDistinct();
    OptStringArgKind(LongOptions, k);
  }

  /** The letters of the program's table are distinct and none is ':'. */
  lemma TableShortsDistinct()
    ensures ShortsDistinct(LongOptions)
  {
    forall a | 0 <= a < |LongOptions| && HasShort(LongOptions[a])
      ensures Short(LongOptions[a]) in LetterIndex && LetterIndex[Short(LongOptions[a])] == a
    {
      EntryLetter(a);
    }
  }

  /** Each letter of the program's table, mapped to the entry that carries it. */
  const LetterIndex: map<char, nat> :=
    map['V' := 0, 'h' := 1, 'd' := 2, 'c' := 3, 'K' := 4,
        'm' := 6, 'M' := 7, 's' := 8, 'S' := 9, 'r' := 10, 'L' := 11, 'o' := 12]

  /** Entry `a` of the program's table carries the letter LetterIndex maps back to `a`. */
  lemma EntryLetter(a: nat)
    requires a < |LongOptions| && HasShort(LongOptions[a])
    ensures Short(LongOptions[a]) in LetterIndex && LetterIndex[Short(LongOptions[a])] == a
  {
    assert a != 5;
  }

  /** An entry's own letter is found in its chunk, with its argument kind. */
  lemma ChunkArgKind(o: LongOption, tail: string)
    requires HasShort(o) && (tail == [] || tail[0] != ':')
    ensures ArgKind(Chunk(o) + tail, Short(o)) == Some(o.hasArg)
  {
    var c := Short(o);
    match o.hasArg
    case NoArgument =>
      assert Chunk(o) + tail == [c] + tail;
    case RequiredArgument =>
      LetterThen(c, ":", tail);
    case OptionalArgument =>
      LetterThen(c, "::", tail);
  }

  /** A letter followed by its colons, then a tail that does not start with ':'. */
  lemma LetterThen(c: char, colons: string, tail: string)
    requires colons == ":" || colons == "::"
    requires tail == [] || tail[0] != ':'
    ensures ArgKind([c] + colons + tail, c) == Some(if colons == ":" then RequiredArgument else OptionalArgument)
  {
    var s := [c] + colons + tail;
    assert s[0] == c && s[1] == ':';
    if colons == ":" {
      assert |s| > 2 ==> s[2] == tail[0];
    } else {
      assert s[2] == ':';
    }
  }

  /** Another entry's letter does not occur in the first entry's chunk. */
  lemma ChunkSkipped(opts: seq<LongOption>, k: nat)
    requires 0 < k < |opts| && HasShort(opts[k]) && ShortsDistinct(opts)
    ensures Short(opts[k]) !in Chunk(opts[0])
  {
    assert Short(opts[k]) != ':';
    if HasShort(opts[0]) {
      assert Short(opts[0]) != Short(opts[k]);
    }
  }

  /** The index of the first table entry named `name`, searching from `k` (main.c:190-197). */
  function FindOption(opts: seq<LongOption>, name: string, k: nat): (r: Option<nat>)
    requires k <= |opts|
    ensures r.Some? ==> k <= r.value < |opts| && opts[r.value].name == name
    ensures r.Some? ==> forall m :: k <= m < r.value ==> opts[m].name != name
    ensures r.None? ==> forall m :: k <= m < |opts| ==> opts[m].name != name
    decreases |opts| - k
  {
    if k == |opts| then None
    else if opts[k].name == name then Some(k)
    else FindOption(opts, name, k + 1)
  }

  /**
   * main.c:183-206: the raw (unparsed) value stored for the option whose long
   * name is `name`; None both for an unknown name (errno ENOENT) and for an
   * option that was never set. `raw` is `flags_values_raw`.
   */
  function ParameterGet(raw: seq<Option<string>>, name: string): (r: Option<string>)
    ensures forall k :: 0 <= k < |LongOptions| && FirstNamed(LongOptions, k, name) && LongOptions[k].val < |raw| ==>
              r == raw[LongOptions[k].val]
    ensures (forall k :: 0 <= k < |LongOptions| ==> LongOptions[k].name != name) ==> r == None
  {
    match FindOption(LongOptions, name, 0)
    case None => None
    case Some(k) => if LongOptions[k].val < |raw| then raw[LongOptions[k].val] else None
  }

  /** Entry `k` is the first one named `name`: the entry main.c:190-197 stops at. */
  predicate FirstNamed(opts: seq<LongOption>, k: nat, name: string)
    requires k < |opts|
  {
    opts[k].name == name && forall m :: 0 <= m < k ==> opts[m].name != name
  }

  /** The resolver `parameter_expand` is given: `parameter_get` bound to a snapshot of the raw values. */
  function Resolver(raw: seq<Option<string>>): string -> Option<string> {
    name => ParameterGet(raw, name)
  }
}
