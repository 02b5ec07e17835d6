/**
 * CommandContext: binds the positional tokens left over by the option parser
 * to a command's argument list, and exposes the result through hasArg,
 * getArgValue, getArgValues, getArgObject and getArgObjects.
 *
 * Bind is the meaning of the binder as one function of the tokens and the
 * argument list; CommandContext.Parse is the binder as the source runs it
 * (two walks over the arguments and a cursor) and is proved to compute Bind.
 */
module Context {
  import opened Values
  import opened Descriptors
  import ArgumentList
  import Text

  /** Why parse() fails: the first two are ParseExceptions, the last an IllegalStateException. */
  datatype BindError =
    | NotEnough(required: nat, provided: nat)
    | TooMany(allowed: nat, provided: nat)
    | IllegalDefinition

  predicate IsParseException(e: BindError) {
    e.NotEnough? || e.TooMany?
  }

  /** The exception messages of parse(), with the counts in decimal; the first letter tells the kind. */
  function Message(e: BindError): (m: string)
    ensures |m| > 0 && m[0] == if e.NotEnough? then 'N' else if e.TooMany? then 'T' else 'I'
    ensures e.IllegalDefinition? ==> m == ArgumentList.IllegalOrderingMessage
  {
    match e
    case NotEnough(r, p) =>
      "Not enough arguments provided.  " + (Text.Decimal(r) + (" required, but only " + (Text.Decimal(p) + " provided.")))
    case TooMany(a, p) =>
      "Too many arguments provided.  Only " + (Text.Decimal(a) + (" allowed, but " + (Text.Decimal(p) + " provided.")))
    case IllegalDefinition =>
      ArgumentList.IllegalOrderingMessage
  }

  /** How many decimal digits s starts with. */
  function DigitRun(s: string): (n: nat)
    ensures n <= |s|
  {
    if s != [] && Text.IsDigit(s[0]) then 1 + DigitRun(s[1..]) else 0
  }

  lemma {:induction false} DigitRunOf(d: string, x: string)
    requires forall i :: 0 <= i < |d| ==> Text.IsDigit(d[i])
    requires x != [] && !Text.IsDigit(x[0])
    ensures DigitRun(d + x) == |d|
    decreases |d|
  {
    if d == [] {
      assert d + x == x;
    } else {
      assert (d + x)[1..] == d[1..] + x;
      DigitRunOf(d[1..], x);
    }
  }

  /** Two digit strings each followed by a non-digit can only be equal together. */
  lemma DigitsThenText(d: string, x: string, e: string, y: string)
    requires forall i :: 0 <= i < |d| ==> Text.IsDigit(d[i])
    requires forall i :: 0 <= i < |e| ==> Text.IsDigit(e[i])
    requires x != [] && !Text.IsDigit(x[0]) && y != [] && !Text.IsDigit(y[0])
    requires d + x == e + y
    ensures d == e && x == y
  {
    var m := d + x;
    DigitRunOf(d, x);
    DigitRunOf(e, y);
    assert d == m[..|d|] && e == m[..|e|];
    assert x == m[|d|..] && y == m[|e|..];
  }

  /** Dropping a common prefix. */
  lemma CancelPrefix(p: string, x: string, y: string)
    requires p + x == p + y
    ensures x == y
  {
    assert x == (p + x)[|p|..];
    assert y == (p + y)[|p|..];
  }

  /** "p", digits, "q", digits, "r": equal texts of this shape have equal digit fields. */
  lemma DigitFieldsReadBack(p: string, q: string, r: string, a: string, b: string, c: string, d: string)
    requires forall i :: 0 <= i < |a| ==> Text.IsDigit(a[i])
    requires forall i :: 0 <= i < |b| ==> Text.IsDigit(b[i])
    requires forall i :: 0 <= i < |c| ==> Text.IsDigit(c[i])
    requires forall i :: 0 <= i < |d| ==> Text.IsDigit(d[i])
    requires q != [] && !Text.IsDigit(q[0]) && r != [] && !Text.IsDigit(r[0])
    requires p + (a + (q + (b + r))) == p + (c + (q + (d + r)))
    ensures a == c && b == d
  {
    CancelPrefix(p, a + (q + (b + r)), c + (q + (d + r)));
    DigitsThenText(a, q + (b + r), c, q + (d + r));
    CancelPrefix(q, b + r, d + r);
    DigitsThenText(b, r, d, r);
  }

  lemma NotEnoughMessageReadBack(r1: nat, p1: nat, r2: nat, p2: nat)
    requires Message(NotEnough(r1, p1)) == Message(NotEnough(r2, p2))
    ensures r1 == r2 && p1 == p2
  {
    var p, q, r := "Not enough arguments provided.  ", " required, but only ", " provided.";
    DigitFieldsReadBack(p, q, r, Text.Decimal(r1), Text.Decimal(p1), Text.Decimal(r2), Text.Decimal(p2));
    Text.DecimalInjective(r1, r2);
    Text.DecimalInjective(p1, p2);
  }

  lemma TooManyMessageReadBack(a1: nat, p1: nat, a2: nat, p2: nat)
    requires Message(TooMany(a1, p1)) == Message(TooMany(a2, p2))
    ensures a1 == a2 && p1 == p2
  {
    var p, q, r := "Too many arguments provided.  Only ", " allowed, but ", " provided.";
    DigitFieldsReadBack(p, q, r, Text.Decimal(a1), Text.Decimal(p1), Text.Decimal(a2), Text.Decimal(p2));
    Text.DecimalInjective(a1, a2);
    Text.DecimalInjective(p1, p2);
  }

  /** A message names its error: the kind and both counts can be read back from the text. */
  lemma MessageDeterminesError(e: BindError, f: BindError)
    requires Message(e) == Message(f)
    ensures e == f
  {
    if e.NotEnough? && f.NotEnough? {
      NotEnoughMessageReadBack(e.required, e.provided, f.required, f.provided);
    } else if e.TooMany? && f.TooMany? {
      TooManyMessageReadBack(e.allowed, e.provided, f.allowed, f.provided);
    }
  }

  // ---------------------------------------------------------------------
  // What the first walk over the arguments counts

  /** Number of required arguments, a required vararg included. */
  function RequiredCount(s: seq<Argument>): nat {
    if s == [] then 0
    else RequiredCount(s[..|s| - 1]) + (if s[|s| - 1].required then 1 else 0)
  }

  predicate HasOptional(s: seq<Argument>) {
    exists i :: 0 <= i < |s| && !s[i].required
  }

  predicate HasVararg(s: seq<Argument>) {
    exists i :: 0 <= i < |s| && s[i].vararg
  }

  /** The upper bound on tokens enforced when no vararg is declared. */
  function Allowed(s: seq<Argument>): nat {
    if HasOptional(s) then RequiredCount(s) + 1 else RequiredCount(s)
  }

  /** Position of the first optional-or-vararg argument, or |s| if there is none. */
  function FirstTerminal(s: seq<Argument>): (f: nat)
    ensures f <= |s|
    ensures forall j :: 0 <= j < f ==> !IsTerminal(s[j])
    ensures f < |s| ==> IsTerminal(s[f])
  {
    if s == [] then 0
    else if IsTerminal(s[0]) then 0
    else 1 + FirstTerminal(s[1..])
  }

  lemma RequiredCountAppend(s: seq<Argument>, a: Argument)
    ensures RequiredCount(s + [a]) == RequiredCount(s) + (if a.required then 1 else 0)
  {
    assert (s + [a])[..|s|] == s;
  }

  /** A list whose first k arguments are all required counts at least k required arguments. */
  lemma {:induction false} RequiredCountAtLeast(s: seq<Argument>, k: nat)
    requires k <= |s|
    requires forall j :: 0 <= j < k ==> s[j].required
    ensures RequiredCount(s) >= k
    decreases |s|
  {
    if s != [] {
      var p := s[..|s| - 1];
      if k == |s| {
        RequiredCountAtLeast(p, k - 1);
      } else {
        RequiredCountAtLeast(p, k);
      }
    }
  }

  /**
   * Everything before the first optional-or-vararg argument is required, so the size
   * check leaves a token for each of them; a required vararg is counted as well.
   */
  lemma PrefixBounded(s: seq<Argument>)
    ensures FirstTerminal(s) <= RequiredCount(s)
    ensures FirstTerminal(s) < |s| && s[FirstTerminal(s)].required ==> FirstTerminal(s) < RequiredCount(s)
  {
    var f := FirstTerminal(s);
    assert forall j :: 0 <= j < f ==> s[j].required by {
      forall j | 0 <= j < f ensures s[j].required {
        assert !IsTerminal(s[j]);
      }
    }
    RequiredCountAtLeast(s, f);
    if f < |s| && s[f].required {
      assert forall j :: 0 <= j < f + 1 ==> s[j].required;
      RequiredCountAtLeast(s, f + 1);
    }
  }

  // ---------------------------------------------------------------------
  // The parsed positional set and its accessors

  /** Single values by argument (_argValues) and the vararg tail (_varargValues). */
  datatype Binding = Binding(values: map<Argument, string>, varargs: seq<string>) {

    /** hasArg(Argument): a vararg has a value when its list is non-empty, a scalar when it is bound. */
    predicate HasArg(arg: Argument) {
      if arg.vararg then varargs != [] else arg in values
    }

    /** getArgValue(Argument): the bound value, or a vararg's first element; null when there is none. */
    function Value(arg: Argument): (r: Option<string>)
      ensures r.Some? <==> HasArg(arg)
      ensures arg.vararg && r.Some? ==> r.value == varargs[0]
      ensures !arg.vararg && r.Some? ==> r.value == values[arg]
    {
      if arg.vararg then (if varargs == [] then None else Some(varargs[0]))
      else if arg in values then Some(values[arg]) else None
    }

    /** getArgValues(Argument): a vararg's whole list, or the singleton of getArgValue (possibly [null]). */
    function Values(arg: Argument): (r: seq<Option<string>>)
      ensures arg.vararg ==> |r| == |varargs| && forall i :: 0 <= i < |r| ==> r[i] == Some(varargs[i])
      ensures !arg.vararg ==> r == [Value(arg)]
      ensures |r| > 0 ==> r[0] == Value(arg)
    {
      if arg.vararg then seq(|varargs|, i requires 0 <= i < |varargs| => Some(varargs[i]))
      else [Value(arg)]
    }

    /** getArgObject(Argument): the raw value when untyped; otherwise its conversion, null on null or failure. */
    function Object(arg: Argument, convert: Converter): (r: Value)
      ensures arg.typ.None? ==> r == Raw(Value(arg))
      ensures arg.typ.Some? && !HasArg(arg) ==> r == Null
      ensures arg.typ.Some? && HasArg(arg) && convert(Value(arg), arg.typ.value).None? ==> r == Null
    {
      var v := Value(arg);
      if arg.typ.None? then Raw(v)
      else if v.None? then Null
      else match convert(v, arg.typ.value)
        case None => Null
        case Some(o) => o
    }

    /** getArgObjects(Argument): the raw values when untyped; otherwise the values that convert, in order. */
    function Objects(arg: Argument, convert: Converter): (r: seq<Value>)
      ensures |r| <= |Values(arg)|
      ensures arg.typ.None? ==> |r| == |Values(arg)| && forall i :: 0 <= i < |r| ==> r[i] == Raw(Values(arg)[i])
    {
      if arg.typ.None? then RawAll(Values(arg))
      else ConvertAll(Values(arg), arg.typ.value, convert)
    }
  }

  function RawAll(vs: seq<Option<string>>): (r: seq<Value>)
    ensures |r| == |vs| && forall i :: 0 <= i < |r| ==> r[i] == Raw(vs[i])
  {
    seq(|vs|, i requires 0 <= i < |vs| => Raw(vs[i]))
  }

  /** The conversion loop of getArgObjects: each value in turn; one that fails is skipped. */
  function ConvertAll(vs: seq<Option<string>>, t: TypeTag, convert: Converter): (r: seq<Value>)
    ensures |r| <= |vs|
  {
    if vs == [] then []
    else
      ConvertAll(vs[..|vs| - 1], t, convert)
      + (match convert(vs[|vs| - 1], t) case None => [] case Some(o) => [o])
  }

  /** Converting a concatenation converts each part: the order of the input is kept. */
  lemma {:induction false} ConvertAllAppend(a: seq<Option<string>>, b: seq<Option<string>>, t: TypeTag, convert: Converter)
    ensures ConvertAll(a + b, t, convert) == ConvertAll(a, t, convert) + ConvertAll(b, t, convert)
    decreases |b|
  {
    if b == [] {
      assert a + b == a;
    } else {
      var b' := b[..|b| - 1];
      ConvertAllAppend(a, b', t, convert);
      assert (a + b)[..|a + b| - 1] == a + b';
      assert (a + b)[|a + b| - 1] == b[|b| - 1];
    }
  }

  /** When every conversion succeeds nothing is dropped, and the i-th result converts the i-th value. */
  lemma {:induction false} ConvertAllTotal(vs: seq<Option<string>>, t: TypeTag, convert: Converter)
    requires forall i :: 0 <= i < |vs| ==> convert(vs[i], t).Some?
    ensures |ConvertAll(vs, t, convert)| == |vs|
    ensures forall i :: 0 <= i < |vs| ==> ConvertAll(vs, t, convert)[i] == convert(vs[i], t).value
  {
    if vs != [] {
      var p := vs[..|vs| - 1];
      ConvertAllTotal(p, t, convert);
      assert forall i :: 0 <= i < |p| ==> p[i] == vs[i];
    }
  }

  /** For a typed scalar with a value, getArgObjects is empty or the singleton of getArgObject. */
  lemma ScalarObjectsAgree(b: Binding, arg: Argument, convert: Converter)
    requires !arg.vararg && arg.typ.Some? && b.HasArg(arg)
    ensures match convert(b.Value(arg), arg.typ.value)
      case None => b.Objects(arg, convert) == [] && b.Object(arg, convert) == Null
      case Some(o) => b.Objects(arg, convert) == [o] && b.Object(arg, convert) == o
  {
    var vs := b.Values(arg);
    assert vs[..0] == [];
  }

  // ---------------------------------------------------------------------
  // The binder's meaning

  /** The single values of the first n arguments, the later of two equal arguments winning. */
  function PrefixValues(tokens: seq<string>, args: seq<Argument>, n: nat): map<Argument, string>
    requires n <= |tokens| && n <= |args|
  {
    if n == 0 then map[] else PrefixValues(tokens, args, n - 1)[args[n - 1] := tokens[n - 1]]
  }

  /** The binding once the size checks pass: the prefix, then the optional-or-vararg argument at f. */
  function Bound(tokens: seq<string>, args: seq<Argument>, f: nat): Binding
    requires f == FirstTerminal(args) && f <= |tokens|
  {
    var prefix := PrefixValues(tokens, args, f);
    if f == |args| then Binding(prefix, [])
    else if args[f].vararg then Binding(prefix, tokens[f..])
    else if f < |tokens| then Binding(prefix[args[f] := tokens[f]], [])
    else Binding(prefix, [])
  }

  /**
   * parse(): too few tokens for the required arguments fails; without a vararg, more
   * than `allowed` fails; an argument after the first optional-or-vararg one fails;
   * otherwise the prefix takes one token each and the last argument takes the rest.
   */
  function Bind(tokens: seq<string>, args: seq<Argument>): (r: Result<Binding, BindError>)
    ensures r.Success? ==> RequiredCount(args) <= |tokens|
    ensures r.Success? && !HasVararg(args) ==> |tokens| <= Allowed(args)
    ensures r.Success? ==> forall j :: 0 <= j < |args| - 1 ==> !IsTerminal(args[j])
  {
    var required := RequiredCount(args);
    if |tokens| < required then Failure(NotEnough(required, |tokens|))
    else if !HasVararg(args) && |tokens| > Allowed(args) then Failure(TooMany(Allowed(args), |tokens|))
    else if FirstTerminal(args) + 1 < |args| then Failure(IllegalDefinition)
    else
      PrefixBounded(args);
      Success(Bound(tokens, args, FirstTerminal(args)))
  }

  // ---------------------------------------------------------------------
  // Properties of the binder

  ghost predicate Distinct(args: seq<Argument>) {
    forall i, j :: 0 <= i < j < |args| ==> args[i] != args[j]
  }

  /** Fewer tokens than required arguments (a required vararg included) is "Not enough arguments". */
  lemma NotEnoughExactly(tokens: seq<string>, args: seq<Argument>)
    ensures Bind(tokens, args) == Failure(NotEnough(RequiredCount(args), |tokens|))
      <==> |tokens| < RequiredCount(args)
  {
  }

  /** Without a vararg, more than `allowed` tokens is "Too many arguments"; with one, never. */
  lemma TooManyExactly(tokens: seq<string>, args: seq<Argument>)
    ensures (Bind(tokens, args).Failure? && Bind(tokens, args).error.TooMany?)
      <==> RequiredCount(args) <= |tokens| && !HasVararg(args) && |tokens| > Allowed(args)
    ensures HasVararg(args) ==> !(Bind(tokens, args).Failure? && Bind(tokens, args).error.TooMany?)
  {
  }

  /** Once the counts fit, an argument following the first optional-or-vararg one is an IllegalStateException. */
  lemma FollowerRejected(tokens: seq<string>, args: seq<Argument>, i: nat, j: nat)
    requires i < j < |args| && IsTerminal(args[i])
    requires RequiredCount(args) <= |tokens|
    requires HasVararg(args) || |tokens| <= Allowed(args)
    ensures Bind(tokens, args) == Failure(IllegalDefinition)
  {
  }

  /** The prefix map has the first n arguments as its keys. */
  lemma {:induction false} PrefixKeys(tokens: seq<string>, args: seq<Argument>, n: nat)
    requires n <= |tokens| && n <= |args|
    ensures PrefixValues(tokens, args, n).Keys == set k | 0 <= k < n :: args[k]
  {
    if n > 0 {
      PrefixKeys(tokens, args, n - 1);
      var m := PrefixValues(tokens, args, n);
      assert m.Keys == (set k | 0 <= k < n - 1 :: args[k]) + {args[n - 1]};
    }
  }

  /** The prefix map holds the first n arguments, each bound to its own token. */
  lemma {:induction false} PrefixValuesAt(tokens: seq<string>, args: seq<Argument>, n: nat)
    requires n <= |tokens| && n <= |args|
    requires Distinct(args)
    ensures PrefixValues(tokens, args, n).Keys == set k | 0 <= k < n :: args[k]
    ensures forall k :: 0 <= k < n ==> PrefixValues(tokens, args, n)[args[k]] == tokens[k]
  {
    PrefixKeys(tokens, args, n);
    if n > 0 {
      PrefixValuesAt(tokens, args, n - 1);
      assert forall k :: 0 <= k < n - 1 ==> args[k] != args[n - 1];
    }
  }

  /** A required single-valued argument at position k is bound to tokens[k], which exists. */
  lemma RequiredBoundToToken(tokens: seq<string>, args: seq<Argument>, k: nat)
    requires Bind(tokens, args).Success?
    requires Distinct(args)
    requires k < |args| && args[k].required && !args[k].vararg
    ensures k < |tokens|
    ensures var b := Bind(tokens, args).value; args[k] in b.values && b.values[args[k]] == tokens[k]
  {
    var f := FirstTerminal(args);
    PrefixBounded(args);
    PrefixValuesAt(tokens, args, f);
    assert k < f;
    if f < |args| {
      assert args[f] != args[k];
    }
  }

  /** A vararg at position k receives tokens[k..] in order: exactly |tokens| - k values. */
  lemma VarargReceivesTail(tokens: seq<string>, args: seq<Argument>, k: nat)
    requires Bind(tokens, args).Success?
    requires k < |args| && args[k].vararg
    ensures k <= |tokens|
    ensures Bind(tokens, args).value.varargs == tokens[k..]
    ensures |Bind(tokens, args).value.varargs| == |tokens| - k
    ensures args[k].required ==> |tokens| - k >= 1
  {
    PrefixBounded(args);
  }

  /** A trailing optional single-valued argument is bound exactly when a token remains for it. */
  lemma OptionalBoundIffTokenLeft(tokens: seq<string>, args: seq<Argument>, k: nat)
    requires Bind(tokens, args).Success?
    requires k < |args| && !args[k].required && !args[k].vararg
    ensures var b := Bind(tokens, args).value;
      (args[k] in b.values <==> k < |tokens|)
      && (k < |tokens| ==> b.values[args[k]] == tokens[k])
      && b.varargs == []
  {
    var f := FirstTerminal(args);
    PrefixBounded(args);
    PrefixKeys(tokens, args, f);
    assert k == f;
    assert forall j :: 0 <= j < f ==> args[j] != args[k];
  }

  /**
   * After a successful parse(), hasArg(Argument) holds for the argument at position k
   * exactly when a token reached position k: always for a required single-valued argument,
   * for an optional one when a token is left, for a vararg when its list is non-empty.
   */
  lemma HasArgAfterBind(tokens: seq<string>, args: seq<Argument>, k: nat)
    requires Bind(tokens, args).Success?
    requires Distinct(args)
    requires k < |args|
    ensures Bind(tokens, args).value.HasArg(args[k]) <==> k < |tokens|
  {
    if args[k].vararg {
      VarargReceivesTail(tokens, args, k);
    } else if args[k].required {
      RequiredBoundToToken(tokens, args, k);
    } else {
      OptionalBoundIffTokenLeft(tokens, args, k);
    }
  }

  /** Without a vararg the vararg list stays empty. */
  lemma NoVarargNoTail(tokens: seq<string>, args: seq<Argument>)
    requires Bind(tokens, args).Success?
    requires !HasVararg(args)
    ensures Bind(tokens, args).value.varargs == []
  {
    var f := FirstTerminal(args);
    if f < |args| {
      assert !args[f].vararg;
    }
  }

  /** A list of r required single-valued arguments accepts exactly r tokens. */
  lemma OnlyRequired(tokens: seq<string>, args: seq<Argument>)
    requires forall i :: 0 <= i < |args| ==> args[i].required && !args[i].vararg
    ensures Bind(tokens, args).Success? <==> |tokens| == |args|
    ensures |tokens| < |args| ==> Bind(tokens, args) == Failure(NotEnough(|args|, |tokens|))
    ensures |tokens| > |args| ==> Bind(tokens, args) == Failure(TooMany(|args|, |tokens|))
  {
    RequiredCountAtLeast(args, |args|);
    RequiredCountAtMost(args);
  }

  lemma {:induction false} RequiredCountAtMost(s: seq<Argument>)
    ensures RequiredCount(s) <= |s|
  {
    if s != [] {
      RequiredCountAtMost(s[..|s| - 1]);
    }
  }

  /**
   * r required arguments followed by one optional vararg: r tokens succeed with an
   * empty (not absent) vararg list; more tokens all go to the vararg.
   */
  lemma OptionalVarargTail(tokens: seq<string>, required: seq<Argument>, v: Argument)
    requires forall i :: 0 <= i < |required| ==> required[i].required && !required[i].vararg
    requires v.vararg && !v.required
    ensures |tokens| < |required| ==> Bind(tokens, required + [v]).Failure?
    ensures |tokens| >= |required| ==>
      Bind(tokens, required + [v]).Success?
      && Bind(tokens, required + [v]).value.varargs == tokens[|required|..]
  {
    var args := required + [v];
    RequiredCountAtLeast(required, |required|);
    RequiredCountAtMost(required);
    RequiredCountAppend(required, v);
    assert HasVararg(args) by { assert args[|required|].vararg; }
    assert forall i :: 0 <= i < |required| ==> args[i] == required[i];
    if |tokens| >= |required| {
      VarargReceivesTail(tokens, args, |required|);
    }
  }

  // ---------------------------------------------------------------------
  // The context object

  class CommandContext {
    /** The positional tokens of the parsed command line (CommandLine.getArgList()). */
    const tokens: seq<string>
    const arguments: ArgumentList.Arguments
    var argValues: map<Argument, string>
    var varargValues: seq<string>

    constructor (tokens: seq<string>, arguments: ArgumentList.Arguments)
      ensures this.tokens == tokens && this.arguments == arguments
      ensures argValues == map[] && varargValues == []
    {
      this.tokens := tokens;
      this.arguments := arguments;
      argValues := map[];
      varargValues := [];
    }

    function State(): Binding
      reads this
    {
      Binding(argValues, varargValues)
    }

    /** parse(): the two walks of the source; on success the context holds Bind's binding. */
    method Parse() returns (err: Option<BindError>)
      modifies this
      ensures err.None? <==> Bind(tokens, arguments.arguments).Success?
      ensures err.Some? ==> err.value == Bind(tokens, arguments.arguments).error
      ensures err.None? ==> State() == Bind(tokens, arguments.arguments).value
    {
      argValues := map[];
      varargValues := [];
      var args := arguments.arguments;

      var required, hasOptional, hasVarargs := CountArguments(args);
      var allowed := if hasOptional then required + 1 else required;

      if |tokens| < required {
        return Some(NotEnough(required, |tokens|));
      }
      if !hasVarargs {
        if |tokens| > allowed {
          return Some(TooMany(allowed, |tokens|));
        }
      }

      ghost var f := FirstTerminal(args);
      PrefixBounded(args);
      var index := 0;
      var finalArgEncountered := false;
      while index < |args|
        invariant 0 <= index <= |args| && index <= f + 1
        invariant finalArgEncountered <==> index == f + 1
        invariant index <= f ==> argValues == PrefixValues(tokens, args, index) && varargValues == []
        invariant index == f + 1 ==> State() == Bound(tokens, args, f)
      {
        var argument := args[index];
        if finalArgEncountered {
          return Some(IllegalDefinition);
        }
        if argument.required && !argument.vararg {
          if index <= |tokens| {
            argValues := argValues[argument := tokens[index]];
          } else {
            assert false;
          }
        } else {
          finalArgEncountered := true;
          if argument.vararg {
            varargValues := tokens[Min(index, |tokens|)..];
            if argument.required && |varargValues| < 1 {
              assert false;
            }
          } else {
            if index < |tokens| {
              argValues := argValues[argument := tokens[index]];
            }
          }
        }
        index := index + 1;
      }
      return None;
    }

    /** hasArg(String): false for an unknown name, else hasArg of the argument registered under it. */
    predicate HasArgNamed(argName: string)
      reads this, arguments
      requires arguments.Valid()
      ensures !arguments.HasArgNamed(argName) ==> !HasArgNamed(argName)
      ensures arguments.HasArgNamed(argName) ==> (HasArgNamed(argName) <==> State().HasArg(arguments.GetArg(argName).value))
    {
      match arguments.GetArg(argName)
      case None => false
      case Some(a) => State().HasArg(a)
    }

    /** getArgValue(String): null for an unknown name. */
    function GetArgValueNamed(argName: string): (r: Option<string>)
      reads this, arguments
      requires arguments.Valid()
      ensures r.Some? <==> HasArgNamed(argName)
      ensures r.Some? ==> r == State().Value(arguments.GetArg(argName).value)
    {
      match arguments.GetArg(argName)
      case None => None
      case Some(a) => State().Value(a)
    }

    /** getArgValues(String): null for an unknown name. */
    function GetArgValuesNamed(argName: string): (r: Option<seq<Option<string>>>)
      reads this, arguments
      requires arguments.Valid()
      ensures r.Some? <==> arguments.HasArgNamed(argName)
      ensures r.Some? ==> r.value == State().Values(arguments.GetArg(argName).value)
    {
      match arguments.GetArg(argName)
      case None => None
      case Some(a) => Some(State().Values(a))
    }

    /** getArgObject(String): null for an unknown name. */
    function GetArgObjectNamed(argName: string, convert: Converter): (r: Value)
      reads this, arguments
      requires arguments.Valid()
      ensures !arguments.HasArgNamed(argName) ==> r == Null
      ensures arguments.HasArgNamed(argName) ==> r == State().Object(arguments.GetArg(argName).value, convert)
    {
      match arguments.GetArg(argName)
      case None => Null
      case Some(a) => State().Object(a, convert)
    }

    /** getArgObjects(Argument): converts the values one by one, skipping (and logging) failures. */
    method GetArgObjects(arg: Argument, convert: Converter) returns (results: seq<Value>)
      ensures results == State().Objects(arg, convert)
      ensures |results| <= |State().Values(arg)|
    {
      var values := State().Values(arg);
      if arg.typ.None? {
        return RawAll(values);
      }
      var t := arg.typ.value;
      results := [];
      for k := 0 to |values|
        invariant results == ConvertAll(values[..k], t, convert)
      {
        assert values[..k + 1][..k] == values[..k];
        match convert(values[k], t)
        case Some(o) => results := results + [o];
        case None =>
      }
      assert values[..|values|] == values;
    }

    /** getArgObjects(String): null for an unknown name. */
    method GetArgObjectsNamed(argName: string, convert: Converter) returns (r: Option<seq<Value>>)
      requires arguments.Valid()
      ensures r.Some? <==> arguments.HasArgNamed(argName)
      ensures r.Some? ==> r.value == State().Objects(arguments.GetArg(argName).value, convert)
    {
      var a := arguments.GetArg(argName);
      if a.None? {
        return None;
      }
      var objects := GetArgObjects(a.value, convert);
      return Some(objects);
    }
  }

  /** The first walk of parse(): counts required arguments and notes optional ones and varargs. */
  method CountArguments(args: seq<Argument>) returns (required: nat, hasOptional: bool, hasVarargs: bool)
    ensures required == RequiredCount(args)
    ensures hasOptional == HasOptional(args)
    ensures hasVarargs == HasVararg(args)
  {
    required := 0;
    hasOptional := false;
    hasVarargs := false;
    for i := 0 to |args|
      invariant required == RequiredCount(args[..i])
      invariant hasOptional == exists j :: 0 <= j < i && !args[j].required
      invariant hasVarargs == exists j :: 0 <= j < i && args[j].vararg
    {
      RequiredCountAppend(args[..i], args[i]);
      assert args[..i + 1] == args[..i] + [args[i]];
      if args[i].required {
        required := required + 1;
      } else {
        hasOptional := true;
      }
      if args[i].vararg {
        hasVarargs := true;
      }
    }
    assert args[..|args|] == args;
  }

  function Min(a: nat, b: nat): nat {
    if a < b then a else b
  }
}
