/** The command-line helpers of minet/cli/argparse.py: the separator
    splitter, the `--no-*` boolean action, configuration keys and their
    environment variables, configuration values resolved from the
    environment or the `.minetrc` configuration, the help text of
    configurable options, and the rewriting of the parsed arguments. */
module CliArgparse {
  import opened Wrappers
  import opened PyStr
  import opened MinetUtils

  /** A Python exception raised while converting an argument. */
  datatype ArgError = ValueError(msg: string)

  /** `SplitterType(splitchar=',')`: an argument type that splits its
      argument on a separator. */
  datatype Splitter = Splitter(splitchar: string := ",") {

    /** `SplitterType.__call__`. Python's `str.split` refuses an empty
        separator with `ValueError`. */
    function Call(s: string): (r: Result<seq<string>, ArgError>)
      ensures r.Err? <==> splitchar == ""
      ensures r.Ok? ==> Join(r.value, splitchar) == s
      ensures r.Ok? ==> |r.value| == Count(s, splitchar) + 1
      ensures r.Ok? ==> forall k :: 0 <= k < |r.value| ==> !Contains(r.value[k], splitchar)
      ensures r.Ok? ==> forall k :: 0 <= k < |r.value| - 1 ==>
        IndexOf(Join(r.value[k..], splitchar), splitchar) == Some(|r.value[k]|)
    {
      if splitchar == "" then Err(ValueError("empty separator"))
      else
        JoinSplit(s, splitchar);
        SplitCount(s, splitchar);
        SplitPiecesFree(s, splitchar);
        SplitLeftmost(s, splitchar);
        Ok(Split(s, splitchar))
    }
  }

  /** The default splitter cuts on commas, and a list of comma-free values
      joined with commas splits back into that list. */
  lemma DefaultSplitterRoundTrip(xs: seq<string>)
    requires |xs| >= 1 && forall k :: 0 <= k < |xs| ==> ',' !in xs[k]
    ensures Splitter().splitchar == ","
    ensures Splitter().Call(Join(xs, ",")) == Ok(xs)
  {
    SplitJoin(xs, ',');
  }

  /** The value `BooleanAction` stores for the option string it was
      called with. */
  function BooleanValue(optionString: string): bool
  {
    !StartsWith(optionString, "--no")
  }

  /** For a pair of flags `--x` and `--no-x`, `--x` stores True and
      `--no-x` stores False (for `x` not itself starting with `no`). */
  lemma BooleanFlagPair(x: string)
    requires !StartsWith(x, "no")
    ensures BooleanValue("--" + x) == true
    ensures BooleanValue("--no-" + x) == false
  {
    var s := "--" + x;
    if |x| >= 2 {
      assert !(x[0] == 'n' && x[1] == 'o');
      assert s[2] == x[0] && s[3] == x[1];
      assert s[..4][2] == s[2] && s[..4][3] == s[3];
    }
    assert ("--no-" + x)[..4] == "--no";
  }

  /** The rule looks only at the first four characters: any option string
      starting with `--no`, such as `--notify`, stores False. */
  lemma BooleanPrefixRule(optionString: string)
    ensures BooleanValue(optionString) == false <==> |optionString| >= 4 && optionString[..4] == "--no"
    ensures BooleanValue("--notify") == false
  {
    assert "--notify"[..4] == "--no";
  }

  /** The upper-cased tokens of a key. */
  function UpperAll(key: seq<string>): (r: seq<string>)
    ensures |r| == |key| && forall k :: 0 <= k < |key| ==> r[k] == Upper(key[k])
  {
    seq(|key|, k requires 0 <= k < |key| => Upper(key[k]))
  }

  /** `rc_key_to_env_var`: the environment variable for a configuration key. */
  function EnvVar(key: seq<string>): string
  {
    "MINET_" + Join(UpperAll(key), "_")
  }

  /** Every character of a joined text comes from a piece or from the separator. */
  lemma {:induction false} JoinChars(xs: seq<string>, sep: string, i: nat)
    requires i < |Join(xs, sep)|
    ensures Join(xs, sep)[i] in sep || exists k :: 0 <= k < |xs| && Join(xs, sep)[i] in xs[k]
  {
    if |xs| > 1 {
      var s := Join(xs, sep);
      var rest := Join(xs[1..], sep);
      assert s == xs[0] + sep + rest;
      if i < |xs[0]| {
        assert s[i] == xs[0][i];
      } else if i < |xs[0]| + |sep| {
        assert s[i] == sep[i - |xs[0]|];
      } else {
        JoinChars(xs[1..], sep, i - |xs[0]| - |sep|);
        assert s[i] == rest[i - |xs[0]| - |sep|];
        if s[i] !in sep {
          var k :| 0 <= k < |xs| - 1 && s[i] in xs[1..][k];
          assert xs[1..][k] == xs[k + 1];
        }
      }
    } else {
      assert Join(xs, sep) == xs[0];
    }
  }

  /** The environment variable starts with `MINET_` and has no lower-case
      ASCII letter: the tokens are upper-cased and joined with `_`. */
  lemma EnvVarShape(key: seq<string>)
    ensures StartsWith(EnvVar(key), "MINET_")
    ensures forall i :: 0 <= i < |EnvVar(key)| ==> !IsLowerAscii(EnvVar(key)[i])
  {
    var ups := UpperAll(key);
    var body := Join(ups, "_");
    var r := EnvVar(key);
    forall i | 0 <= i < |r| ensures !IsLowerAscii(r[i]) {
      if i >= 6 {
        assert r[i] == body[i - 6];
        JoinChars(ups, "_", i - 6);
        if body[i - 6] !in "_" {
          var k :| 0 <= k < |ups| && body[i - 6] in ups[k];
          var j :| 0 <= j < |ups[k]| && ups[k][j] == body[i - 6];
        }
      } else {
        assert r[..6] == "MINET_";
        assert r[i] == "MINET_"[i];
      }
    }
  }

  /** For a non-empty key whose tokens contain no `_`, the variable name
      gives the upper-cased tokens back: split after `MINET_` on `_`. */
  lemma EnvVarTokens(key: seq<string>)
    requires |key| >= 1 && forall k :: 0 <= k < |key| ==> '_' !in key[k]
    ensures Split(EnvVar(key)[6..], "_") == UpperAll(key)
  {
    var ups := UpperAll(key);
    assert EnvVar(key)[6..] == Join(ups, "_");
    SplitJoin(ups, '_');
  }

  predicate IsDigit(c: char)
  {
    '0' <= c <= '9'
  }

  predicate AllDigits(s: string)
  {
    forall i :: 0 <= i < |s| ==> IsDigit(s[i])
  }

  /** The value of a run of decimal digits. */
  function DigitsValue(ds: string): nat
    requires AllDigits(ds)
    decreases |ds|
  {
    if ds == [] then 0
    else DigitsValue(ds[..|ds| - 1]) * 10 + (ds[|ds| - 1] as int - '0' as int)
  }

  /** Python's `int(s)` in base 10 on an already stripped text: an optional
      sign followed by at least one digit. */
  function ParseInt(s: string): (r: Result<int, ArgError>)
    ensures r.Ok? <==> (
      || (|s| >= 1 && AllDigits(s))
      || (|s| >= 2 && (s[0] == '-' || s[0] == '+') && AllDigits(s[1..])))
  {
    if |s| >= 1 && AllDigits(s) then Ok(DigitsValue(s))
    else if |s| >= 2 && (s[0] == '-' || s[0] == '+') && AllDigits(s[1..]) then
      var v: int := DigitsValue(s[1..]);
      Ok(if s[0] == '-' then -v else v)
    else Err(ValueError("invalid literal for int() with base 10: '" + s + "'"))
  }

  /** Python's `str(n)` for a natural number. */
  function ShowNat(n: nat): (r: string)
    ensures |r| >= 1 && AllDigits(r)
  {
    if n < 10 then [('0' as int + n) as char]
    else ShowNat(n / 10) + [('0' as int + n % 10) as char]
  }

  function ShowInt(n: int): string
  {
    if n < 0 then "-" + ShowNat(-n) else ShowNat(n)
  }

  lemma {:induction false} DigitsOfShowNat(n: nat)
    ensures DigitsValue(ShowNat(n)) == n
  {
    if n >= 10 {
      DigitsOfShowNat(n / 10);
      var s := ShowNat(n);
      assert s[..|s| - 1] == ShowNat(n / 10);
    }
  }

  /** `int(str(n)) == n`. */
  lemma ParseShowInt(n: int)
    ensures ParseInt(ShowInt(n)) == Ok(n)
  {
    if n < 0 {
      DigitsOfShowNat(-n);
      var s := ShowInt(n);
      assert s[1..] == ShowNat(-n);
      assert !AllDigits(s) by {
        assert !IsDigit(s[0]);
      }
    } else {
      DigitsOfShowNat(n);
    }
  }

  /** The `type` of a configurable option; `str` when none is given. */
  datatype Converter = StrType | IntType | SplitterType(splitter: Splitter)

  /** `self.type(value)`. */
  function Convert(t: Converter, s: string): Result<Value, ArgError>
  {
    match t
    case StrType => Ok(VStr(s))
    case IntType =>
      (match ParseInt(s)
       case Ok(i) => Ok(VInt(i))
       case Err(e) => Err(e))
    case SplitterType(sp) =>
      (match sp.Call(s)
       case Ok(parts) => Ok(VList(seq(|parts|, k requires 0 <= k < |parts| => VStr(parts[k]))))
       case Err(e) => Err(e))
  }

  /** The raw environment value of a variable, empty when unset. */
  function EnvGet(env: map<string, string>, name: string): string
  {
    if name in env then env[name] else ""
  }

  /** `WrappedValue(key, default, _type)`: an option default that is
      resolved once the configuration has been read. */
  datatype WrappedValue = WrappedValue(key: seq<string>, default: Value, typ: Converter) {

    /** `WrappedValue.resolve`: the environment wins over the
        configuration as soon as its stripped value is not empty. */
    function Resolve(env: map<string, string>, config: Value): (r: Result<Value, ArgError>)
      ensures Strip(EnvGet(env, EnvVar(key))) != "" ==> r == Convert(typ, Strip(EnvGet(env, EnvVar(key))))
      ensures Strip(EnvGet(env, EnvVar(key))) == "" ==> r == Ok(NestedGet(key, config, default))
    {
      var envValue := Strip(EnvGet(env, EnvVar(key)));
      if envValue != "" then Convert(typ, envValue)
      else Ok(NestedGet(key, config, default))
    }
  }

  /** A whitespace-only environment value counts as unset, and an unset
      variable leaves the configuration lookup with its default. */
  lemma ResolveBlankIsUnset(w: WrappedValue, env: map<string, string>, config: Value)
    requires forall k :: 0 <= k < |EnvGet(env, EnvVar(w.key))| ==> IsSpace(EnvGet(env, EnvVar(w.key))[k])
    ensures w.Resolve(env, config) == w.Resolve(env - {EnvVar(w.key)}, config)
    ensures w.Resolve(env, config) == Ok(NestedGet(w.key, config, w.default))
  {
    StripEmptyIff(EnvGet(env, EnvVar(w.key)));
    assert EnvGet(env - {EnvVar(w.key)}, EnvVar(w.key)) == "";
  }

  /** A set environment value makes the configuration irrelevant. */
  lemma ResolveEnvOverridesConfig(w: WrappedValue, env: map<string, string>, c1: Value, c2: Value)
    requires Strip(EnvGet(env, EnvVar(w.key))) != ""
    ensures w.Resolve(env, c1) == w.Resolve(env, c2)
  {
  }

  /** The sentence appended to each configurable option's help text. */
  function ConfigHelpSentence(rcKey: seq<string>): string
  {
    "Can also be configured in a .minetrc file as \"" + Join(rcKey, ".")
      + "\" or read from the " + EnvVar(rcKey) + " env variable."
  }

  /** The help text of a configurable option: its own trailing periods are
      dropped, then a single period and the sentence naming the key and
      the variable are appended. */
  function ConfigHelp(help: string, rcKey: seq<string>): string
  {
    RStripChar(help, '.') + ". " + ConfigHelpSentence(rcKey)
  }

  /** The original help, less only its trailing periods, starts the new
      help, which then has exactly one period where the help's own
      periods were, and ends with the sentence. */
  lemma ConfigHelpShape(help: string, rcKey: seq<string>)
    ensures var core := RStripChar(help, '.');
      && StartsWith(help, core)
      && (forall k :: |core| <= k < |help| ==> help[k] == '.')
      && (core == "" || core[|core| - 1] != '.')
      && StartsWith(ConfigHelp(help, rcKey), core + ". ")
      && EndsWith(ConfigHelp(help, rcKey), ConfigHelpSentence(rcKey))
      && |ConfigHelp(help, rcKey)| == |core| + 2 + |ConfigHelpSentence(rcKey)|
  {
    var core := RStripChar(help, '.');
    var r := ConfigHelp(help, rcKey);
    var sentence := ConfigHelpSentence(rcKey);
    assert r == (core + ". ") + sentence;
    assert r[..|core + ". "|] == core + ". ";
    assert r[|r| - |sentence|..] == sentence;
  }

  /** The keyword arguments of an option that `ConfigAction` inspects. */
  datatype ActionKwargs = ActionKwargs(help: Option<string>, typ: Option<Converter>)

  /** What `ConfigAction.__init__` hands over to argparse's `Action`. */
  datatype ConfigAction = ConfigAction(
    optionStrings: seq<string>,
    dest: string,
    help: Option<string>,
    default: WrappedValue,
    typ: Option<Converter>)
  {
    /** `ConfigAction.__call__`: store the parsed value. */
    method Call(ns: Namespace, value: ArgValue)
      requires ns.Valid()
      modifies ns
      ensures ns.Valid()
      ensures ns.attrs == old(ns.attrs)[dest := value]
      ensures ns.order == Noted(old(ns.order), dest)
    {
      ns.SetAttr(dest, value);
    }
  }

  /** `ConfigAction.__init__`: the help text is rewritten only when given,
      and the default becomes a wrapped value over the key, the given
      default and the option's type (`str` when none is given). */
  function NewConfigAction(
    optionStrings: seq<string>, dest: string, rcKey: seq<string>, default: Value, kwargs: ActionKwargs): (a: ConfigAction)
    ensures a.help.None? <==> kwargs.help.None?
    ensures kwargs.help.Some? ==> a.help == Some(ConfigHelp(kwargs.help.value, rcKey))
    ensures a.default.key == rcKey && a.default.default == default
    ensures a.default.typ == (if kwargs.typ.Some? then kwargs.typ.value else StrType)
    ensures a.typ == kwargs.typ && a.dest == dest && a.optionStrings == optionStrings
  {
    var help := if kwargs.help.Some? then Some(ConfigHelp(kwargs.help.value, rcKey)) else None;
    var typ := if kwargs.typ.Some? then kwargs.typ.value else StrType;
    ConfigAction(optionStrings, dest, help, WrappedValue(rcKey, default, typ), kwargs.typ)
  }

  /** Where an output file opener writes once opened. */
  datatype OutputTarget = Stdout | File(path: string, append: bool)

  /** A value held by the parsed-arguments namespace. */
  datatype ArgValue =
    | NoneValue
    | Flag(b: bool)
    | Text(s: string)
    | Config(v: Value)
    | Wrapped(w: WrappedValue)
    | OutputOpener(path: Option<string>)
    | OpenedOutput(target: OutputTarget)

  /** Python truthiness of a namespace value. */
  predicate ArgTruthy(v: ArgValue)
  {
    match v
    case NoneValue => false
    case Flag(b) => b
    case Text(s) => s != ""
    case Config(c) => Truthy(c)
    case _ => true
  }

  /** `OutputFileOpener.open(resume)`: standard output when no path was
      given, otherwise the file, appended to when resuming. */
  function OpenOutput(path: Option<string>, resume: bool): (t: OutputTarget)
    ensures t.Stdout? <==> path.None?
    ensures t.File? ==> t.path == path.value && t.append == resume
  {
    if path.None? then Stdout else File(path.value, resume)
  }

  /** `order` with `name` appended unless it is already there. */
  function Noted(order: seq<string>, name: string): (r: seq<string>)
    ensures name in r && forall n :: n in r <==> n in order || n == name
  {
    if name in order then order else order + [name]
  }

  /** The parsed-arguments namespace: its attributes, and the order in
      which they were first set (the order `vars()` lists them in). */
  class Namespace {
    var attrs: map<string, ArgValue>
    var order: seq<string>

    ghost predicate Valid()
      reads this
    {
      && (forall i, j :: 0 <= i < j < |order| ==> order[i] != order[j])
      && (forall k :: k in attrs <==> k in order)
    }

    constructor ()
      ensures Valid() && attrs == map[] && order == []
    {
      attrs := map[];
      order := [];
    }

    /** `setattr(self, name, v)`. */
    method SetAttr(name: string, v: ArgValue)
      requires Valid()
      modifies this
      ensures Valid()
      ensures attrs == old(attrs)[name := v]
      ensures order == Noted(old(order), name)
    {
      if name !in attrs {
        order := order + [name];
      }
      attrs := attrs[name := v];
    }
  }

  /** `BooleanAction`: an action taking no argument. */
  datatype BooleanAction = BooleanAction(optionStrings: seq<string>, dest: string) {

    /** `BooleanAction.__call__`. */
    method Call(ns: Namespace, optionString: string)
      requires ns.Valid()
      modifies ns
      ensures ns.Valid()
      ensures ns.attrs == old(ns.attrs)[dest := Flag(BooleanValue(optionString))]
      ensures ns.order == Noted(old(ns.order), dest)
    {
      ns.SetAttr(dest, Flag(if StartsWith(optionString, "--no") then false else true));
    }
  }

  /** `OutputFileAction`: the `-o` option. */
  datatype OutputFileAction = OutputFileAction(optionStrings: seq<string>, dest: string, help: string, default: ArgValue) {

    /** `OutputFileAction.__call__`: store an opener for the path and mark
        the output as a file. */
    method Call(ns: Namespace, value: string)
      requires ns.Valid()
      modifies ns
      ensures ns.Valid()
      ensures ns.attrs == old(ns.attrs)[dest := OutputOpener(Some(value))]["output_is_file" := Flag(true)]
      ensures ns.order == Noted(Noted(old(ns.order), dest), "output_is_file")
    {
      ns.SetAttr(dest, OutputOpener(Some(value)));
      ns.SetAttr("output_is_file", Flag(true));
    }
  }

  /** `OutputFileAction.__init__`: a fixed help text, and a default opener
      without a path. */
  function NewOutputFileAction(optionStrings: seq<string>, dest: string): (a: OutputFileAction)
    ensures a.optionStrings == optionStrings && a.dest == dest
    ensures a.default == OutputOpener(None)
  {
    OutputFileAction(optionStrings, dest,
      "Path to the output file. By default, the results will be printed to stdout.",
      OutputOpener(None))
  }

  /** Without `-o` the output opener opens standard output; with `-o path`
      it opens the path, appending exactly when resuming. */
  lemma OutputOpenerTargets(optionStrings: seq<string>, dest: string, path: string, resume: bool)
    ensures OpenOutput(NewOutputFileAction(optionStrings, dest).default.path, resume) == Stdout
    ensures OpenOutput(Some(path), resume) == File(path, resume)
  {
  }

  /** The first step of `resolve_arg_dependencies`: `output_is_file` is
      added as False when there is an `output` but no `output_is_file`. */
  function DefaultOutputIsFile(a: map<string, ArgValue>): (r: map<string, ArgValue>)
    ensures "output_is_file" in a ==> r == a
    ensures "output" !in a ==> r == a
    ensures "output" in a && "output_is_file" !in a ==> r == a["output_is_file" := Flag(false)]
  {
    if "output" in a && "output_is_file" !in a then a["output_is_file" := Flag(false)] else a
  }

  /** Whether the arguments ask to resume: `getattr(cli_args, 'resume', False)`. */
  predicate Resuming(a: map<string, ArgValue>)
  {
    "resume" in a && ArgTruthy(a["resume"])
  }

  /** How wrapped configuration values resolve. */
  type Resolver = WrappedValue -> Result<Value, ArgError>

  /** `w.resolve(config)` under a given environment. */
  function ResolverOf(env: map<string, string>, config: Value): Resolver
  {
    (w: WrappedValue) => w.Resolve(env, config)
  }

  /** What the attribute loop makes of one value: a wrapped configuration
      value is resolved, an output opener is opened (appending when
      resuming), anything else is kept. */
  function SettleValue(v: ArgValue, resume: bool, resolve: Resolver): (r: Result<ArgValue, ArgError>)
    ensures r.Ok? ==> !r.value.Wrapped? && !r.value.OutputOpener?
    ensures r.Err? <==> v.Wrapped? && resolve(v.w).Err?
    ensures r.Err? ==> r.error == resolve(v.w).error
    ensures v.Wrapped? && resolve(v.w).Ok? ==> r == Ok(Config(resolve(v.w).value))
    ensures v.OutputOpener? ==> r == Ok(OpenedOutput(OpenOutput(v.path, resume)))
    ensures !v.Wrapped? && !v.OutputOpener? ==> r == Ok(v)
  {
    if v.Wrapped? then
      var resolved := resolve(v.w);
      if resolved.Err? then Err(resolved.error) else Ok(Config(resolved.value))
    else if v.OutputOpener? then Ok(OpenedOutput(OpenOutput(v.path, resume)))
    else Ok(v)
  }

  /** One iteration of the attribute loop, on attribute `name`. */
  function ResolveStep(a: map<string, ArgValue>, name: string, resolve: Resolver): (r: Result<map<string, ArgValue>, ArgError>)
    requires name in a
    ensures r.Ok? ==> name in r.value && r.value == a[name := r.value[name]]
    ensures r.Ok? ==> !r.value[name].Wrapped? && !r.value[name].OutputOpener?
    ensures r.Ok? <==> SettleValue(a[name], Resuming(a), resolve).Ok?
    ensures r.Ok? ==> r.value[name] == SettleValue(a[name], Resuming(a), resolve).value
    ensures r.Err? ==> a[name].Wrapped? && r.error == resolve(a[name].w).error
  {
    var settled := SettleValue(a[name], Resuming(a), resolve);
    if settled.Err? then Err(settled.error) else Ok(a[name := settled.value])
  }

  /** The attribute loop over `names`, stopping at the first error. */
  function ResolveAll(a: map<string, ArgValue>, names: seq<string>, resolve: Resolver): (r: Result<map<string, ArgValue>, ArgError>)
    requires forall i :: 0 <= i < |names| ==> names[i] in a
    ensures r.Ok? ==> forall k :: k in r.value <==> k in a
    decreases |names|
  {
    if names == [] then Ok(a)
    else
      var init := names[..|names| - 1];
      assert forall i :: 0 <= i < |init| ==> init[i] == names[i];
      match ResolveAll(a, init, resolve)
      case Err(e) => Err(e)
      case Ok(m) => ResolveStep(m, names[|names| - 1], resolve)
  }

  /** After the loop no attribute it visited is still a wrapped value or
      an unopened output. */
  lemma {:induction false} ResolveAllSettles(a: map<string, ArgValue>, names: seq<string>, resolve: Resolver)
    requires forall i :: 0 <= i < |names| ==> names[i] in a
    requires ResolveAll(a, names, resolve).Ok?
    ensures forall i :: 0 <= i < |names| ==>
      !ResolveAll(a, names, resolve).value[names[i]].Wrapped?
      && !ResolveAll(a, names, resolve).value[names[i]].OutputOpener?
    decreases |names|
  {
    if names != [] {
      var init := names[..|names| - 1];
      var last := names[|names| - 1];
      assert forall i :: 0 <= i < |init| ==> init[i] == names[i];
      var prev := ResolveAll(a, init, resolve);
      assert prev.Ok?;
      ResolveAllSettles(a, init, resolve);
      var r := ResolveStep(prev.value, last, resolve);
      assert ResolveAll(a, names, resolve) == r;
      forall i | 0 <= i < |names|
        ensures !r.value[names[i]].Wrapped? && !r.value[names[i]].OutputOpener?
      {
        if names[i] != last {
          assert i < |init| && names[i] == init[i];
          assert r.value[names[i]] == prev.value[init[i]];
        }
      }
    }
  }

  /** The loop changes nothing but wrapped values and output openers; in
      particular an `output_is_file` flag set to True stays True. */
  lemma {:induction false} ResolveAllKeepsPlain(a: map<string, ArgValue>, names: seq<string>, resolve: Resolver, k: string)
    requires forall i :: 0 <= i < |names| ==> names[i] in a
    requires ResolveAll(a, names, resolve).Ok?
    requires k in a && !a[k].Wrapped? && !a[k].OutputOpener?
    ensures ResolveAll(a, names, resolve).value[k] == a[k]
    decreases |names|
  {
    if names != [] {
      var init := names[..|names| - 1];
      var last := names[|names| - 1];
      assert forall i :: 0 <= i < |init| ==> init[i] == names[i];
      var prev := ResolveAll(a, init, resolve);
      assert prev.Ok?;
      ResolveAllKeepsPlain(a, init, resolve, k);
      assert ResolveAll(a, names, resolve) == ResolveStep(prev.value, last, resolve);
    }
  }

  /** An attribute the loop does not visit keeps its value. */
  lemma {:induction false} ResolveAllUnvisited(a: map<string, ArgValue>, names: seq<string>, resolve: Resolver, k: string)
    requires forall i :: 0 <= i < |names| ==> names[i] in a
    requires ResolveAll(a, names, resolve).Ok?
    requires k in a && forall i :: 0 <= i < |names| ==> names[i] != k
    ensures ResolveAll(a, names, resolve).value[k] == a[k]
    decreases |names|
  {
    if names != [] {
      var init := names[..|names| - 1];
      assert forall i :: 0 <= i < |init| ==> init[i] == names[i];
      var prev := ResolveAll(a, init, resolve);
      assert prev.Ok?;
      ResolveAllUnvisited(a, init, resolve, k);
      assert ResolveAll(a, names, resolve) == ResolveStep(prev.value, names[|names| - 1], resolve);
    }
  }

  /** With distinct names, the loop leaves attribute `names[i]` as
      SettleValue makes it of its starting value, resuming as the
      attributes stood when the loop reached it. */
  lemma {:induction false} ResolveAllVisited(a: map<string, ArgValue>, names: seq<string>, resolve: Resolver, i: nat)
    requires forall j :: 0 <= j < |names| ==> names[j] in a
    requires forall j, l :: 0 <= j < l < |names| ==> names[j] != names[l]
    requires ResolveAll(a, names, resolve).Ok? && i < |names|
    ensures ResolveAll(a, names[..i], resolve).Ok?
    ensures SettleValue(a[names[i]], Resuming(ResolveAll(a, names[..i], resolve).value), resolve).Ok?
    ensures ResolveAll(a, names, resolve).value[names[i]] ==
      SettleValue(a[names[i]], Resuming(ResolveAll(a, names[..i], resolve).value), resolve).value
    decreases |names|
  {
    var init := names[..|names| - 1];
    var last := names[|names| - 1];
    assert forall j :: 0 <= j < |init| ==> init[j] == names[j];
    var prev := ResolveAll(a, init, resolve);
    assert prev.Ok?;
    assert ResolveAll(a, names, resolve) == ResolveStep(prev.value, last, resolve);
    if i == |names| - 1 {
      ResolveAllUnvisited(a, init, resolve, last);
    } else {
      ResolveAllVisited(a, init, resolve, i);
      assert init[..i] == names[..i];
      assert names[i] != last;
    }
  }

  /** `resume` is neither wrapped nor an opener, so the loop keeps it. */
  predicate PlainResume(a: map<string, ArgValue>)
  {
    "resume" in a ==> !a["resume"].Wrapped? && !a["resume"].OutputOpener?
  }

  /** What a successful loop with distinct names leaves in attribute
      `names[i]`: its resolution when it was wrapped and, when `resume` is
      plain, its target opened under that flag when it was an opener. */
  lemma ResolveAllAt(a: map<string, ArgValue>, names: seq<string>, resolve: Resolver, i: nat)
    requires forall j :: 0 <= j < |names| ==> names[j] in a
    requires forall j, l :: 0 <= j < l < |names| ==> names[j] != names[l]
    requires ResolveAll(a, names, resolve).Ok? && i < |names|
    ensures a[names[i]].Wrapped? ==> (resolve(a[names[i]].w).Ok?
      && ResolveAll(a, names, resolve).value[names[i]] == Config(resolve(a[names[i]].w).value))
    ensures PlainResume(a) && a[names[i]].OutputOpener? ==>
      ResolveAll(a, names, resolve).value[names[i]] == OpenedOutput(OpenOutput(a[names[i]].path, Resuming(a)))
  {
    ResolveAllVisited(a, names, resolve, i);
    var prev := ResolveAll(a, names[..i], resolve);
    if PlainResume(a) && "resume" in a {
      assert forall j :: 0 <= j < i ==> names[..i][j] in a;
      ResolveAllKeepsPlain(a, names[..i], resolve, "resume");
    }
  }

  /** A successful loop over distinct names resolves every wrapped value
      it visits and, when `resume` is plain, opens every opener it visits
      in append mode exactly when resuming. */
  lemma ResolveAllResolves(a: map<string, ArgValue>, names: seq<string>, resolve: Resolver)
    requires forall j :: 0 <= j < |names| ==> names[j] in a
    requires forall j, l :: 0 <= j < l < |names| ==> names[j] != names[l]
    requires ResolveAll(a, names, resolve).Ok?
    ensures forall i :: 0 <= i < |names| && a[names[i]].Wrapped? ==> (resolve(a[names[i]].w).Ok?
      && ResolveAll(a, names, resolve).value[names[i]] == Config(resolve(a[names[i]].w).value))
    ensures PlainResume(a) ==> forall i :: 0 <= i < |names| && a[names[i]].OutputOpener? ==>
      ResolveAll(a, names, resolve).value[names[i]] == OpenedOutput(OpenOutput(a[names[i]].path, Resuming(a)))
  {
    forall i | 0 <= i < |names|
      ensures a[names[i]].Wrapped? ==> (resolve(a[names[i]].w).Ok?
        && ResolveAll(a, names, resolve).value[names[i]] == Config(resolve(a[names[i]].w).value))
      ensures PlainResume(a) && a[names[i]].OutputOpener? ==>
        ResolveAll(a, names, resolve).value[names[i]] == OpenedOutput(OpenOutput(a[names[i]].path, Resuming(a)))
    {
      ResolveAllAt(a, names, resolve, i);
    }
  }

  /** The loop over one more name takes one more step. */
  lemma ResolveAllSnoc(a: map<string, ArgValue>, names: seq<string>, i: nat, resolve: Resolver)
    requires forall j :: 0 <= j < |names| ==> names[j] in a
    requires i < |names|
    ensures ResolveAll(a, names[..i], resolve).Err? ==>
      ResolveAll(a, names[..i + 1], resolve) == ResolveAll(a, names[..i], resolve)
    ensures ResolveAll(a, names[..i], resolve).Ok? ==>
      ResolveAll(a, names[..i + 1], resolve) == ResolveStep(ResolveAll(a, names[..i], resolve).value, names[i], resolve)
  {
    assert names[..i + 1][..i] == names[..i];
  }

  /** An error stops the loop: once a prefix of the names fails, so does
      the whole loop, with the same error. */
  lemma {:induction false} ResolveAllStopsAtError(a: map<string, ArgValue>, names: seq<string>, j: nat, resolve: Resolver)
    requires forall i :: 0 <= i < |names| ==> names[i] in a
    requires j <= |names|
    requires ResolveAll(a, names[..j], resolve).Err?
    ensures ResolveAll(a, names, resolve) == ResolveAll(a, names[..j], resolve)
    decreases |names| - j
  {
    if j < |names| {
      var p := names[..j + 1];
      assert p[..j] == names[..j];
      assert ResolveAll(a, p, resolve) == ResolveAll(a, names[..j], resolve);
      ResolveAllStopsAtError(a, names, j + 1, resolve);
    } else {
      assert names[..j] == names;
    }
  }

  /** One iteration of the attribute loop of `resolve_arg_dependencies`. */
  method VisitAttr(ns: Namespace, name: string, resolve: Resolver) returns (err: Option<ArgError>)
    requires ns.Valid() && name in ns.attrs
    modifies ns
    ensures ns.Valid() && ns.order == old(ns.order)
    ensures var step := ResolveStep(old(ns.attrs), name, resolve);
      && (err.None? <==> step.Ok?)
      && (err.None? ==> ns.attrs == step.value)
      && (err.Some? ==> step == Err(err.value) && ns.attrs == old(ns.attrs))
  {
    var value := ns.attrs[name];
    if value.Wrapped? {
      var resolved := resolve(value.w);
      if resolved.Err? {
        return Some(resolved.error);
      }
      ns.SetAttr(name, Config(resolved.value));
    } else if value.OutputOpener? {
      var resume := "resume" in ns.attrs && ArgTruthy(ns.attrs["resume"]);
      ns.SetAttr(name, OpenedOutput(OpenOutput(value.path, resume)));
    }
    return None;
  }

  /** The attribute loop of `resolve_arg_dependencies`, in the order the
      attributes were first set. */
  method ResolveAttrs(ns: Namespace, resolve: Resolver) returns (err: Option<ArgError>, ghost stop: nat)
    requires ns.Valid()
    modifies ns
    ensures ns.Valid() && ns.order == old(ns.order)
    ensures err.None? <==> ResolveAll(old(ns.attrs), ns.order, resolve).Ok?
    ensures err.None? ==> ns.attrs == ResolveAll(old(ns.attrs), ns.order, resolve).value
    ensures err.Some? ==>
      && stop < |ns.order|
      && ResolveAll(old(ns.attrs), ns.order[..stop], resolve) == Ok(ns.attrs)
      && ResolveStep(ns.attrs, ns.order[stop], resolve) == Err(err.value)
  {
    ghost var start := ns.attrs;
    var names := ns.order;
    for i := 0 to |names|
      invariant ns.Valid() && ns.order == names
      invariant ResolveAll(start, names[..i], resolve) == Ok(ns.attrs)
    {
      ResolveAllSnoc(start, names, i, resolve);
      ghost var before := ns.attrs;
      var stepErr := VisitAttr(ns, names[i], resolve);
      if stepErr.Some? {
        assert ns.attrs == before;
        assert ResolveStep(ns.attrs, names[i], resolve) == Err(stepErr.value);
        ResolveAllStopsAtError(start, names, i + 1, resolve);
        assert ResolveAll(start, names, resolve).Err?;
        return stepErr, i;
      }
    }
    assert names[..|names|] == names;
    assert ResolveAll(start, names, resolve) == Ok(ns.attrs);
    return None, 0;
  }

  /** `output_is_file` is never overwritten by `resolve_arg_dependencies`:
      a flag already set, True by `OutputFileAction` or otherwise, survives
      the defaulting and the attribute loop. */
  lemma OutputIsFileKept(a: map<string, ArgValue>, names: seq<string>, resolve: Resolver)
    requires "output_is_file" in a && a["output_is_file"].Flag?
    requires forall i :: 0 <= i < |names| ==> names[i] in DefaultOutputIsFile(a)
    requires ResolveAll(DefaultOutputIsFile(a), names, resolve).Ok?
    ensures ResolveAll(DefaultOutputIsFile(a), names, resolve).value["output_is_file"] == a["output_is_file"]
  {
    ResolveAllKeepsPlain(DefaultOutputIsFile(a), names, resolve, "output_is_file");
  }

  /** `resolve_arg_dependencies(cli_args, config)` without its list of
      files to close: default `output_is_file`, then visit every attribute
      in order, resolving wrapped configuration values and opening output
      openers. The first conversion error stops the loop, leaving the
      attributes visited so far rewritten. */
  method ResolveArgDependencies(ns: Namespace, env: map<string, string>, config: Value) returns (err: Option<ArgError>)
    requires ns.Valid()
    modifies ns
    ensures ns.Valid()
    ensures ns.order == old(if "output" in ns.attrs && "output_is_file" !in ns.attrs then ns.order + ["output_is_file"] else ns.order)
    ensures var start := DefaultOutputIsFile(old(ns.attrs));
      && (err.None? <==> ResolveAll(start, ns.order, ResolverOf(env, config)).Ok?)
      && (err.None? ==> ns.attrs == ResolveAll(start, ns.order, ResolverOf(env, config)).value)
      && (err.Some? ==> exists i :: (
            && 0 <= i < |ns.order|
            && ResolveAll(start, ns.order[..i], ResolverOf(env, config)) == Ok(ns.attrs)
            && ResolveStep(ns.attrs, ns.order[i], ResolverOf(env, config)) == Err(err.value)))
  {
    if "output" in ns.attrs && "output_is_file" !in ns.attrs {
      ns.SetAttr("output_is_file", Flag(false));
    }
    ghost var stop;
    err, stop := ResolveAttrs(ns, ResolverOf(env, config));
  }
}
