/**
 * CommandSet: the registry of sub commands, how a command class is turned
 * into a sub command (buildSubCommand), how the first word of the command
 * line selects what happens (invoke, help), and the stages a run goes
 * through (runSubCommand). The option parser and the command's exec() are
 * taken as function parameters.
 */
module Commands {
  import opened Values
  import opened Descriptors
  import ArgumentList
  import Context
  import opened Injection
  import Text

  // ---------------------------------------------------------------------
  // buildSubCommand

  /** `@SubCommand(name, description)`. */
  datatype SubCommandAnnotation = SubCommandAnnotation(name: string, description: string)

  /**
   * A command class as reflection sees it: its annotation, its declared fields in order,
   * whether newInstance() succeeds, and the field values a fresh instance starts with.
   */
  datatype CommandClass = CommandClass(
    annotation: Option<SubCommandAnnotation>,
    fields: seq<FieldDecl>,
    instantiable: bool,
    defaults: map<FieldId, Value>)

  /** A registered sub command: its instance, name, description, options and arguments. */
  datatype CommandSummary = CommandSummary(
    instance: CommandInstance,
    name: string,
    description: string,
    options: seq<OptionDesc>,
    args: ArgumentList.Arguments)

  predicate BothAnnotated(f: FieldDecl) {
    f.opt.Some? && f.arg.Some?
  }

  /** The arguments the @Arg fields declare, in field order. */
  function DeclaredArguments(fs: seq<FieldDecl>): seq<Argument> {
    if fs == [] then []
    else
      var f := fs[|fs| - 1];
      DeclaredArguments(fs[..|fs| - 1]) + (if f.arg.Some? then [ArgumentFor(f, f.arg.value)] else [])
  }

  /** The options the @Opt fields declare, in field order. */
  function DeclaredOptions(fs: seq<FieldDecl>): seq<OptionDesc> {
    if fs == [] then []
    else
      var f := fs[|fs| - 1];
      DeclaredOptions(fs[..|fs| - 1]) + (if f.opt.Some? then [ExtractOption(f, f.opt.value)] else [])
  }

  /**
   * buildSubCommand returns null when newInstance() fails, when the class has no @SubCommand,
   * when a field carries both @Arg and @Opt, when OptionBuilder.create rejects an option
   * name, or when addArgument rejects a second optional-or-vararg argument.
   */
  predicate BuildSkips(cls: CommandClass) {
    || !cls.instantiable
    || cls.annotation.None?
    || (exists i :: 0 <= i < |cls.fields| && BothAnnotated(cls.fields[i]))
    || (exists i :: 0 <= i < |cls.fields| && RejectedOption(cls.fields[i]))
    || ArgumentList.TerminalCount(DeclaredArguments(cls.fields)) >= 2
  }

  /** Declaring more fields never removes an optional-or-vararg argument. */
  lemma {:induction false} TerminalCountGrows(fs: seq<FieldDecl>, i: nat)
    requires i <= |fs|
    ensures ArgumentList.TerminalCount(DeclaredArguments(fs[..i])) <= ArgumentList.TerminalCount(DeclaredArguments(fs))
    decreases |fs|
  {
    if i < |fs| {
      var p := fs[..|fs| - 1];
      assert p[..i] == fs[..i];
      TerminalCountGrows(p, i);
      var f := fs[|fs| - 1];
      if f.arg.Some? {
        ArgumentList.TerminalCountAppend(DeclaredArguments(p), ArgumentFor(f, f.arg.value));
      } else {
        assert DeclaredArguments(fs) == DeclaredArguments(p);
      }
    } else {
      assert fs[..i] == fs;
    }
  }

  /** getDeclaredFields() lists distinct fields: no two declarations share an id. */
  predicate DistinctFieldIds(fs: seq<FieldDecl>) {
    forall i, j :: 0 <= i < j < |fs| ==> fs[i].id != fs[j].id
  }

  /** Option o is the one extractOption builds for some @Opt field of fs. */
  predicate OptionFromField(fs: seq<FieldDecl>, o: OptionDesc) {
    exists i :: 0 <= i < |fs| && fs[i].opt.Some? && o == ExtractOption(fs[i], fs[i].opt.value)
  }

  /** Every declared option is the one extractOption builds for one of the @Opt fields. */
  lemma {:induction false} DeclaredOptionsFromFields(fs: seq<FieldDecl>)
    ensures forall k :: 0 <= k < |DeclaredOptions(fs)| ==> OptionFromField(fs, DeclaredOptions(fs)[k])
    decreases |fs|
  {
    if fs != [] {
      var n := |fs| - 1;
      var p := fs[..n];
      DeclaredOptionsFromFields(p);
      var d := DeclaredOptions(fs);
      var dp := DeclaredOptions(p);
      forall k | 0 <= k < |d|
        ensures OptionFromField(fs, d[k])
      {
        if k < |dp| {
          assert d[k] == dp[k];
          assert OptionFromField(p, dp[k]);
          var i :| 0 <= i < |p| && p[i].opt.Some? && dp[k] == ExtractOption(p[i], p[i].opt.value);
          assert fs[i] == p[i];
        } else {
          assert d[k] == ExtractOption(fs[n], fs[n].opt.value);
        }
      }
    }
  }

  /** No two options of d write the same field. */
  predicate SlotsDistinct(d: seq<OptionDesc>) {
    forall j, k :: 0 <= j < k < |d| ==> d[j].slot != d[k].slot
  }

  /** For distinct fields, no two declared options write the same field. */
  lemma {:induction false} DeclaredOptionSlotsDistinct(fs: seq<FieldDecl>)
    requires DistinctFieldIds(fs)
    ensures SlotsDistinct(DeclaredOptions(fs))
    decreases |fs|
  {
    if fs != [] {
      var n := |fs| - 1;
      var p := fs[..n];
      assert DistinctFieldIds(p);
      DeclaredOptionSlotsDistinct(p);
      var dp := DeclaredOptions(p);
      if fs[n].opt.Some? {
        var last := ExtractOption(fs[n], fs[n].opt.value);
        assert DeclaredOptions(fs) == dp + [last];
        DeclaredOptionsFromFields(p);
        forall j | 0 <= j < |dp|
          ensures dp[j].slot != last.slot
        {
          assert OptionFromField(p, dp[j]);
          var i :| 0 <= i < |p| && p[i].opt.Some? && dp[j] == ExtractOption(p[i], p[i].opt.value);
          assert p[i] == fs[i];
        }
        DistinctAppend(dp, last);
      } else {
        assert DeclaredOptions(fs) == dp;
      }
    }
  }

  lemma DistinctAppend(d: seq<OptionDesc>, o: OptionDesc)
    requires SlotsDistinct(d)
    requires forall j :: 0 <= j < |d| ==> d[j].slot != o.slot
    ensures SlotsDistinct(d + [o])
  {
    var e := d + [o];
    forall j, k | 0 <= j < k < |e|
      ensures e[j].slot != e[k].slot
    {
      assert e[j] == d[j];
    }
  }

  /**
   * For a command built from distinct fields, each declared option behaves as OptionField
   * says: it comes from its own @Opt field, is a flag exactly for a boolean or Boolean
   * field, and writes that field alone.
   */
  lemma BuiltOptionField(fs: seq<FieldDecl>, fields: map<FieldId, Value>, cl: CommandLine, k: nat)
    requires DistinctFieldIds(fs) && k < |DeclaredOptions(fs)|
    ensures var o := DeclaredOptions(fs)[k];
      var r := InjectOptionsSpec(fields, DeclaredOptions(fs), cl);
      && OptionFromField(fs, o)
      && (o.hasArg <==> !IsBooleanType(o.typ))
      && (o.opt in cl.present && r.ok ==> o.slot in r.fields && r.fields[o.slot] == OptionWrite(o, cl))
      && (RefusedFlag(o, cl) ==> !r.ok)
      && (o.opt !in cl.present ==> AgreesAt(r.fields, fields, o.slot))
  {
    var d := DeclaredOptions(fs);
    DeclaredOptionSlotsDistinct(fs);
    DeclaredOptionsFromFields(fs);
    assert forall j :: 0 <= j < |d| && j != k ==> d[j].slot != d[k].slot by {
      forall j | 0 <= j < |d| && j != k
        ensures d[j].slot != d[k].slot
      {
        if j < k {
          assert d[j].slot != d[k].slot;
        } else {
          assert d[k].slot != d[j].slot;
        }
      }
    }
    OptionField(fields, d, cl, k);
    var i :| 0 <= i < |fs| && fs[i].opt.Some? && DeclaredOptions(fs)[k] == ExtractOption(fs[i], fs[i].opt.value);
  }

  /** Argument a is the one extractArgument builds for some @Arg field of fs. */
  predicate FromField(fs: seq<FieldDecl>, a: Argument) {
    exists i :: 0 <= i < |fs| && fs[i].arg.Some? && a == ArgumentFor(fs[i], fs[i].arg.value)
  }

  /** Every declared argument is bound to the field it was declared on. */
  lemma {:induction false} DeclaredArgumentsHaveFields(fs: seq<FieldDecl>)
    ensures forall k :: 0 <= k < |DeclaredArguments(fs)| ==> DeclaredArguments(fs)[k].slot.Some?
    ensures forall k :: 0 <= k < |DeclaredArguments(fs)| ==> FromField(fs, DeclaredArguments(fs)[k])
    decreases |fs|
  {
    if fs != [] {
      var p := fs[..|fs| - 1];
      DeclaredArgumentsHaveFields(p);
      var d := DeclaredArguments(fs);
      var dp := DeclaredArguments(p);
      forall k | 0 <= k < |d|
        ensures d[k].slot.Some?
        ensures FromField(fs, d[k])
      {
        if k < |dp| {
          assert d[k] == dp[k];
          assert FromField(p, dp[k]);
          var i :| 0 <= i < |p| && p[i].arg.Some? && dp[k] == ArgumentFor(p[i], p[i].arg.value);
          assert fs[i] == p[i];
        } else {
          var i := |fs| - 1;
          assert d[k] == ArgumentFor(fs[i], fs[i].arg.value);
        }
      }
      assert d == DeclaredArguments(fs);
    } else {
      assert DeclaredArguments(fs) == [];
    }
  }

  /** Injecting the arguments of a built command never writes through a missing field. */
  lemma BuiltArgumentsInjectCleanly(fs: seq<FieldDecl>, fields: map<FieldId, Value>, b: Context.Binding, convert: Converter)
    ensures InjectArgumentsSpec(fields, DeclaredArguments(fs), b, convert).ok
  {
    DeclaredArgumentsHaveFields(fs);
    ArgumentInjectionFails(fields, DeclaredArguments(fs), b, convert);
  }

  /** One more field extends the declared arguments and options by what that field declares. */
  lemma DeclaredStep(fs: seq<FieldDecl>, i: nat)
    requires i < |fs|
    ensures DeclaredArguments(fs[..i + 1])
      == DeclaredArguments(fs[..i]) + (if fs[i].arg.Some? then [ArgumentFor(fs[i], fs[i].arg.value)] else [])
    ensures DeclaredOptions(fs[..i + 1])
      == DeclaredOptions(fs[..i]) + (if fs[i].opt.Some? then [ExtractOption(fs[i], fs[i].opt.value)] else [])
  {
    assert fs[..i + 1][..i] == fs[..i];
    assert fs[..i + 1][i] == fs[i];
  }

  /** extractArgument and addArgument for one @Arg field: rejected exactly when it would be a second optional-or-vararg argument. */
  method DeclareArgument(args: ArgumentList.Arguments, field: FieldDecl) returns (ok: bool)
    requires args.Valid() && field.arg.Some?
    modifies args
    ensures args.Valid()
    ensures ok ==> args.arguments == old(args.arguments) + [ArgumentFor(field, field.arg.value)]
    ensures !ok <==> ArgumentList.TerminalCount(old(args.arguments) + [ArgumentFor(field, field.arg.value)]) >= 2
  {
    var argument := ExtractArgument(field, field.arg.value);
    ArgumentList.TerminalCountZero(args.arguments);
    ArgumentList.TerminalCountAppend(args.arguments, argument);
    var added := args.AddArgument(argument);
    ok := added.Success?;
  }

  /**
   * One step of buildSubCommand's loop for a field without both annotations: its option,
   * which fails on a name OptionBuilder.create rejects, then its argument.
   */
  method DeclareField(args: ArgumentList.Arguments, field: FieldDecl) returns (option: seq<OptionDesc>, ok: bool)
    requires args.Valid() && !BothAnnotated(field)
    modifies args
    ensures args.Valid()
    ensures RejectedOption(field) ==> option == [] && args.arguments == old(args.arguments)
    ensures !RejectedOption(field) ==> option == if field.opt.Some? then [ExtractOption(field, field.opt.value)] else []
    ensures ok ==> args.arguments == old(args.arguments) + (if field.arg.Some? then [ArgumentFor(field, field.arg.value)] else [])
    ensures !ok <==>
      || RejectedOption(field)
      || (field.arg.Some? && ArgumentList.TerminalCount(old(args.arguments) + [ArgumentFor(field, field.arg.value)]) >= 2)
  {
    if RejectedOption(field) {
      return [], false;
    }
    option := if field.opt.Some? then [ExtractOption(field, field.opt.value)] else [];
    ok := true;
    if field.arg.Some? {
      ok := DeclareArgument(args, field);
    }
  }

  /**
   * The loop of buildSubCommand over the declared fields: it stops at a field with both
   * annotations, at a rejected option name or at a rejected argument; otherwise it has
   * collected every option and argument.
   */
  method DeclareFields(fields: seq<FieldDecl>) returns (options: seq<OptionDesc>, args: ArgumentList.Arguments, ok: bool)
    ensures fresh(args) && args.Valid()
    ensures ok <==>
      && (forall i :: 0 <= i < |fields| ==> !BothAnnotated(fields[i]))
      && (forall i :: 0 <= i < |fields| ==> !RejectedOption(fields[i]))
      && ArgumentList.TerminalCount(DeclaredArguments(fields)) <= 1
    ensures ok ==> options == DeclaredOptions(fields) && args.arguments == DeclaredArguments(fields)
  {
    options := [];
    args := new ArgumentList.Arguments();
    for i := 0 to |fields|
      invariant fresh(args) && args.Valid()
      invariant forall j :: 0 <= j < i ==> !BothAnnotated(fields[j])
      invariant forall j :: 0 <= j < i ==> !RejectedOption(fields[j])
      invariant args.arguments == DeclaredArguments(fields[..i])
      invariant options == DeclaredOptions(fields[..i])
    {
      var field := fields[i];
      DeclaredStep(fields, i);
      if BothAnnotated(field) {
        return options, args, false;
      }
      var option, added := DeclareField(args, field);
      options := options + option;
      if !added {
        if !RejectedOption(field) {
          TerminalCountGrows(fields, i + 1);
        }
        return options, args, false;
      }
    }
    assert fields[..|fields|] == fields;
    ok := true;
  }

  /** buildSubCommand: the summary of a well-formed command class, or null. */
  method BuildSubCommand(cls: CommandClass) returns (r: Option<CommandSummary>)
    ensures r.None? <==> BuildSkips(cls)
    ensures r.Some? ==>
      && r.value.name == cls.annotation.value.name
      && r.value.description == cls.annotation.value.description
      && r.value.options == DeclaredOptions(cls.fields)
      && r.value.args.arguments == DeclaredArguments(cls.fields)
      && r.value.args.Valid()
      && r.value.instance.fields == cls.defaults
      && fresh(r.value.instance) && fresh(r.value.args)
  {
    if !cls.instantiable {
      return None;
    }
    var instance := new CommandInstance(cls.defaults);
    if cls.annotation.None? {
      return None;
    }
    var options, args, ok := DeclareFields(cls.fields);
    if !ok {
      return None;
    }
    var ann := cls.annotation.value;
    return Some(CommandSummary(instance, ann.name, ann.description, options, args));
  }

  // ---------------------------------------------------------------------
  // invoke and help

  /** What invoke(String[]) does with the command line. */
  datatype Action =
    | GeneralHelp
    | CommandHelp(name: string)
    | NotFound(name: string)
    | Run(name: string, rest: seq<string>)

  /**
   * invoke: no words shows the general help; a first word that normalises to "help" shows
   * the general help, or the help of the command named by the second word; any other
   * first word is looked up after normalisation and either run with the remaining words
   * or reported as not found.
   */
  function Route(args: seq<string>, registered: set<string>): (a: Action)
    ensures a.GeneralHelp? <==> |args| == 0 || (Text.Normalize(args[0]) == "help" && |args| == 1)
    ensures a.Run? <==> |args| > 0 && Text.Normalize(args[0]) != "help" && Text.Normalize(args[0]) in registered
    ensures a.Run? ==> a.name == Text.Normalize(args[0]) && a.rest == args[1..]
    ensures a.CommandHelp? <==> |args| > 1 && Text.Normalize(args[0]) == "help" && Text.Normalize(args[1]) in registered
    ensures a.CommandHelp? ==> a.name == Text.Normalize(args[1])
    ensures a.NotFound? ==> a.name !in registered
    ensures a.NotFound? ==>
      a.name == Text.Normalize(if |args| > 1 && Text.Normalize(args[0]) == "help" then args[1] else args[0])
  {
    if |args| == 0 then GeneralHelp
    else
      var command := Text.Normalize(args[0]);
      if command == "help" then
        if |args| == 1 then GeneralHelp
        else
          var helpCommand := Text.Normalize(args[1]);
          if helpCommand in registered then CommandHelp(helpCommand) else NotFound(helpCommand)
      else if command in registered then Run(command, args[1..])
      else NotFound(command)
  }

  /** The line printed before the general help when a name is unknown. */
  function NotFoundMessage(name: string): (m: string)
    ensures |m| == 19 + |name| && m[19..] == name
  {
    "Command not found: " + name
  }

  /** invoke and help only ever select a name in its normal form. */
  lemma RoutedNamesAreNormal(args: seq<string>, registered: set<string>)
    ensures var a := Route(args, registered);
      !a.GeneralHelp? ==> Text.Normalize(a.name) == a.name
  {
    var a := Route(args, registered);
    if |args| > 0 {
      var command := Text.Normalize(args[0]);
      Text.NormalizeIdempotent(args[0]);
      if command == "help" && |args| > 1 {
        Text.NormalizeIdempotent(args[1]);
        assert !a.GeneralHelp? ==> a.name == Text.Normalize(args[1]);
      } else {
        assert !a.GeneralHelp? ==> a.name == command;
      }
    }
  }

  /** A command registered under a name that is not in normal form can never be run, nor its help shown. */
  lemma UnreachableName(args: seq<string>, registered: set<string>, name: string)
    requires Text.Normalize(name) != name
    ensures var a := Route(args, registered);
      !(a.Run? && a.name == name) && !(a.CommandHelp? && a.name == name)
  {
    RoutedNamesAreNormal(args, registered);
  }

  /** Selecting a command ignores case and surrounding blanks of the first word. */
  lemma DispatchIgnoresCase(s: string, t: string, rest: seq<string>, registered: set<string>)
    requires Text.Normalize(s) == Text.Normalize(t)
    ensures Route([s] + rest, registered) == Route([t] + rest, registered)
  {
    assert ([s] + rest)[1..] == rest == ([t] + rest)[1..];
  }

  // ---------------------------------------------------------------------
  // runSubCommand

  datatype Stage = OptionParsing | PositionalParsing | ArgumentInjection | OptionInjection | Execution

  const AllStages: seq<Stage> := [OptionParsing, PositionalParsing, ArgumentInjection, OptionInjection, Execution]

  /**
   * How exec() ends: normally, with a CommandError, with any other Exception, or with a
   * java.lang.Error (a failed assertion, say), which is not an Exception.
   */
  datatype HandlerResult = Returned | CommandError(message: string) | Threw | ThrewError

  /**
   * How runSubCommand ends: normally; with the command's help and an error line, then
   * exit status 1; with a stack trace, then exit status 1; with an exception escaping
   * (the IllegalStateException of a badly ordered argument list); or with exec()'s
   * java.lang.Error escaping.
   */
  datatype Termination =
    | Completed
    | UsageError(message: string)
    | StackTrace
    | Propagated(error: Context.BindError)
    | Escaped

  /** The exit status runSubCommand forces, if any. */
  function ExitStatus(t: Termination): (status: Option<int>)
    ensures status.Some? ==> status.value == 1
    ensures status.None? <==> t.Completed? || t.Propagated? || t.Escaped?
  {
    if t.UsageError? || t.StackTrace? then Some(1) else None
  }

  /** The stages a run went through, how it ended and the instance's fields afterwards. */
  datatype RunOutcome = RunOutcome(stages: seq<Stage>, end: Termination, fields: map<FieldId, Value>)

  /** GnuParser.parse: the command line, or the message of the ParseException it throws. */
  type OptionParser = (seq<OptionDesc>, seq<string>) -> Result<CommandLine, string>

  /** exec() on the instance's fields and the context. */
  type Handler = (map<FieldId, Value>, Context.Binding, CommandLine) -> HandlerResult

  /** The line shown above the command's help: the message after an "error: " prefix. */
  function ErrorLine(message: string): (line: string)
    ensures |line| == 7 + |message| && line[..7] == "error: " && line[7..] == message
  {
    "error: " + message
  }

  /**
   * How the inner try of runSubCommand ends once exec() has been called: a CommandError
   * shows the help with its message, any other Exception a stack trace; an Error is not caught.
   */
  function ExecEnd(result: HandlerResult): (end: Termination)
    ensures end.Completed? <==> result.Returned?
    ensures ExitStatus(end) == Some(1) <==> result.CommandError? || result.Threw?
    ensures result.CommandError? ==> end == UsageError(ErrorLine(result.message))
    ensures end.Escaped? <==> result.ThrewError?
  {
    match result
    case Returned => Completed
    case CommandError(m) => UsageError(ErrorLine(m))
    case Threw => StackTrace
    case ThrewError => Escaped
  }

  /** How runSubCommand ends when parse() throws: its ParseException is shown with the help, anything else escapes. */
  function BindEnd(e: Context.BindError): (end: Termination)
    ensures Context.IsParseException(e) ==> end == UsageError(ErrorLine(Context.Message(e)))
    ensures !Context.IsParseException(e) ==> end == Propagated(e) && ExitStatus(end).None?
  {
    if Context.IsParseException(e) then UsageError(ErrorLine(Context.Message(e))) else Propagated(e)
  }

  /** The inner try of runSubCommand, once the options are parsed into cl. */
  function RunParsedSpec(
    options: seq<OptionDesc>, args: seq<Argument>, fields: map<FieldId, Value>,
    cl: CommandLine, convert: Converter, handler: Handler): RunOutcome
  {
    var bound := Context.Bind(cl.argList, args);
    if bound.Failure? then RunOutcome(AllStages[..2], BindEnd(bound.error), fields)
    else
      var injected := InjectArgumentsSpec(fields, args, bound.value, convert);
      if !injected.ok then RunOutcome(AllStages[..3], StackTrace, injected.fields)
      else
        var written := InjectOptionsSpec(injected.fields, options, cl);
        if !written.ok then RunOutcome(AllStages[..4], StackTrace, written.fields)
        else RunOutcome(AllStages, ExecEnd(handler(written.fields, bound.value, cl)), written.fields)
  }

  /** What runSubCommand does, stage by stage. */
  function RunSpec(
    options: seq<OptionDesc>, args: seq<Argument>, fields: map<FieldId, Value>,
    tokens: seq<string>, parser: OptionParser, convert: Converter, handler: Handler): RunOutcome
  {
    match parser(options, tokens)
    case Failure(msg) => RunOutcome(AllStages[..1], UsageError(ErrorLine(msg)), fields)
    case Success(cl) => RunParsedSpec(options, args, fields, cl, convert, handler)
  }

  /** The stages always run in order, starting with option parsing, and stop at the first failure. */
  lemma StagesInOrder(
    options: seq<OptionDesc>, args: seq<Argument>, fields: map<FieldId, Value>,
    tokens: seq<string>, parser: OptionParser, convert: Converter, handler: Handler)
    ensures var o := RunSpec(options, args, fields, tokens, parser, convert, handler);
      1 <= |o.stages| <= |AllStages| && o.stages == AllStages[..|o.stages|]
      && (|o.stages| < |AllStages| ==> !o.end.Completed?)
  {
  }

  /** exec() runs only when both parses succeeded and every argument and every option was injected. */
  lemma ExecutionNeedsParsedInput(
    options: seq<OptionDesc>, args: seq<Argument>, fields: map<FieldId, Value>,
    tokens: seq<string>, parser: OptionParser, convert: Converter, handler: Handler)
    ensures var o := RunSpec(options, args, fields, tokens, parser, convert, handler);
      Execution in o.stages <==>
        && parser(options, tokens).Success?
        && var cl := parser(options, tokens).value;
           var bound := Context.Bind(cl.argList, args);
           && bound.Success?
           && var injected := InjectArgumentsSpec(fields, args, bound.value, convert);
              && injected.ok
              && InjectOptionsSpec(injected.fields, options, cl).ok
  {
    var o := RunSpec(options, args, fields, tokens, parser, convert, handler);
    if parser(options, tokens).Success? {
      var cl := parser(options, tokens).value;
      var bound := Context.Bind(cl.argList, args);
      if bound.Failure? {
        assert o.stages == [OptionParsing, PositionalParsing];
      } else if !InjectArgumentsSpec(fields, args, bound.value, convert).ok {
        assert o.stages == [OptionParsing, PositionalParsing, ArgumentInjection];
      } else if !InjectOptionsSpec(InjectArgumentsSpec(fields, args, bound.value, convert).fields, options, cl).ok {
        assert o.stages == [OptionParsing, PositionalParsing, ArgumentInjection, OptionInjection];
      }
    } else {
      assert o.stages == [OptionParsing];
    }
  }

  /** A command line that fails to parse leaves the instance untouched and ends with a usage error or an escaping exception. */
  lemma ParseFailureLeavesFields(
    options: seq<OptionDesc>, args: seq<Argument>, fields: map<FieldId, Value>,
    tokens: seq<string>, parser: OptionParser, convert: Converter, handler: Handler)
    requires parser(options, tokens).Failure?
      || Context.Bind(parser(options, tokens).value.argList, args).Failure?
    ensures var o := RunSpec(options, args, fields, tokens, parser, convert, handler);
      o.fields == fields && (o.end.UsageError? || o.end.Propagated?) && Execution !in o.stages
  {
  }

  /** Too few positional words: the run stops with the "Not enough arguments" usage error and exit status 1. */
  lemma TooFewWordsReported(
    options: seq<OptionDesc>, args: seq<Argument>, fields: map<FieldId, Value>,
    tokens: seq<string>, parser: OptionParser, convert: Converter, handler: Handler)
    requires parser(options, tokens).Success?
    requires |parser(options, tokens).value.argList| < Context.RequiredCount(args)
    ensures var o := RunSpec(options, args, fields, tokens, parser, convert, handler);
      var n := |parser(options, tokens).value.argList|;
      o.end == UsageError(ErrorLine(Context.Message(Context.NotEnough(Context.RequiredCount(args), n))))
      && ExitStatus(o.end) == Some(1)
  {
  }

  /** An argument list with a follower after its first optional-or-vararg argument escapes runSubCommand once the arity checks pass. */
  lemma IllegalDefinitionEscapes(
    options: seq<OptionDesc>, args: seq<Argument>, fields: map<FieldId, Value>,
    tokens: seq<string>, parser: OptionParser, convert: Converter, handler: Handler)
    requires parser(options, tokens).Success?
    requires Context.Bind(parser(options, tokens).value.argList, args).Failure?
    requires Context.Bind(parser(options, tokens).value.argList, args).error == Context.IllegalDefinition
    ensures var o := RunSpec(options, args, fields, tokens, parser, convert, handler);
      o.end == Propagated(Context.IllegalDefinition) && ExitStatus(o.end).None?
  {
  }

  /**
   * For a built command, a stack trace comes from exec() itself or from a refused flag
   * on the command line (a java.lang.Boolean field); argument injection never throws.
   */
  lemma BuiltCommandStackTraceCauses(
    fs: seq<FieldDecl>, options: seq<OptionDesc>, fields: map<FieldId, Value>,
    tokens: seq<string>, parser: OptionParser, convert: Converter, handler: Handler)
    ensures var o := RunSpec(options, DeclaredArguments(fs), fields, tokens, parser, convert, handler);
      o.end.StackTrace? ==>
        && parser(options, tokens).Success?
        && (|| o.stages == AllStages
            || (&& o.stages == AllStages[..4]
                && exists k :: 0 <= k < |options| && RefusedFlag(options[k], parser(options, tokens).value)))
  {
    var args := DeclaredArguments(fs);
    if parser(options, tokens).Success? {
      var cl := parser(options, tokens).value;
      var bound := Context.Bind(cl.argList, args);
      if bound.Success? {
        BuiltArgumentsInjectCleanly(fs, fields, bound.value, convert);
        OptionInjectionFails(InjectArgumentsSpec(fields, args, bound.value, convert).fields, options, cl);
      }
    }
  }

  /**
   * A refused flag on the command line (a java.lang.Boolean field given as a flag) stops a run
   * whose positional words bind and whose arguments inject: a stack trace and exit status 1,
   * and exec() is not called.
   */
  lemma RefusedFlagStopsRun(
    options: seq<OptionDesc>, args: seq<Argument>, fields: map<FieldId, Value>,
    tokens: seq<string>, parser: OptionParser, convert: Converter, handler: Handler, k: nat)
    requires parser(options, tokens).Success?
    requires Context.Bind(parser(options, tokens).value.argList, args).Success?
    requires InjectArgumentsSpec(fields, args, Context.Bind(parser(options, tokens).value.argList, args).value, convert).ok
    requires k < |options| && RefusedFlag(options[k], parser(options, tokens).value)
    ensures var o := RunSpec(options, args, fields, tokens, parser, convert, handler);
      && o.end == StackTrace && ExitStatus(o.end) == Some(1)
      && OptionInjection in o.stages && Execution !in o.stages
  {
    var cl := parser(options, tokens).value;
    var b := Context.Bind(cl.argList, args).value;
    OptionInjectionFails(InjectArgumentsSpec(fields, args, b, convert).fields, options, cl);
    var o := RunSpec(options, args, fields, tokens, parser, convert, handler);
    assert o.stages == [OptionParsing, PositionalParsing, ArgumentInjection, OptionInjection];
  }

  /**
   * A java.lang.Error from exec() is caught by neither handler of runSubCommand: it leaves
   * with no stack trace printed and no exit status, after every stage has run.
   */
  lemma ExecErrorEscapes(
    options: seq<OptionDesc>, args: seq<Argument>, fields: map<FieldId, Value>,
    tokens: seq<string>, parser: OptionParser, convert: Converter, handler: Handler)
    ensures var o := RunSpec(options, args, fields, tokens, parser, convert, handler);
      o.end.Escaped? <==>
        && Execution in o.stages
        && var cl := parser(options, tokens).value;
           handler(o.fields, Context.Bind(cl.argList, args).value, cl) == ThrewError
    ensures ExitStatus(Escaped).None?
  {
    var o := RunSpec(options, args, fields, tokens, parser, convert, handler);
    ExecutionNeedsParsedInput(options, args, fields, tokens, parser, convert, handler);
    if Execution in o.stages {
      var cl := parser(options, tokens).value;
      var b := Context.Bind(cl.argList, args).value;
      assert o.end == ExecEnd(handler(o.fields, b, cl));
    } else {
      assert !o.end.Escaped?;
    }
  }

  /** A run that completes has gone through every stage and its fields hold the injected options. */
  lemma CompletedRunsEverything(
    options: seq<OptionDesc>, args: seq<Argument>, fields: map<FieldId, Value>,
    tokens: seq<string>, parser: OptionParser, convert: Converter, handler: Handler)
    ensures var o := RunSpec(options, args, fields, tokens, parser, convert, handler);
      o.end.Completed? ==>
        && o.stages == AllStages
        && parser(options, tokens).Success?
        && var cl := parser(options, tokens).value;
           var b := Context.Bind(cl.argList, args).value;
           && handler(o.fields, b, cl) == Returned
           && InjectOptionsSpec(InjectArgumentsSpec(fields, args, b, convert).fields, options, cl)
              == WriteResult(o.fields, true)
  {
  }

  /** runSubCommand on a registered command: parse the options, bind the positional words, inject, exec. */
  method RunSubCommand(command: CommandSummary, tokens: seq<string>, parser: OptionParser, convert: Converter, handler: Handler)
    returns (outcome: RunOutcome)
    modifies command.instance
    ensures outcome == RunSpec(command.options, command.args.arguments, old(command.instance.fields), tokens, parser, convert, handler)
    ensures command.instance.fields == outcome.fields
  {
    var parsed := parser(command.options, tokens);
    if parsed.Failure? {
      return RunOutcome([OptionParsing], UsageError(ErrorLine(parsed.error)), command.instance.fields);
    }
    outcome := RunParsed(command, parsed.value, convert, handler);
  }

  /** The inner try of runSubCommand: the positional parse, both injections and exec. */
  method RunParsed(command: CommandSummary, commandLine: CommandLine, convert: Converter, handler: Handler)
    returns (outcome: RunOutcome)
    modifies command.instance
    ensures outcome == RunParsedSpec(command.options, command.args.arguments, old(command.instance.fields), commandLine, convert, handler)
    ensures command.instance.fields == outcome.fields
  {
    var input := new Context.CommandContext(commandLine.argList, command.args);
    var err := input.Parse();
    if err.Some? {
      return RunOutcome([OptionParsing, PositionalParsing], BindEnd(err.value), command.instance.fields);
    }
    var ok := InjectArguments(command.args, input, command.instance, convert);
    if !ok {
      return RunOutcome([OptionParsing, PositionalParsing, ArgumentInjection], StackTrace, command.instance.fields);
    }
    ok := InjectOptions(command.options, commandLine, command.instance);
    if !ok {
      return RunOutcome([OptionParsing, PositionalParsing, ArgumentInjection, OptionInjection], StackTrace, command.instance.fields);
    }
    var result := handler(command.instance.fields, input.State(), commandLine);
    return RunOutcome(AllStages, ExecEnd(result), command.instance.fields);
  }

  // ---------------------------------------------------------------------
  // The registry

  /** The names a sequence of command classes registers. */
  function RegisteredNames(classes: seq<CommandClass>): set<string> {
    set i | 0 <= i < |classes| && !BuildSkips(classes[i]) :: classes[i].annotation.value.name
  }

  lemma RegisteredNamesAppend(classes: seq<CommandClass>, c: CommandClass)
    ensures RegisteredNames(classes + [c]) == RegisteredNames(classes) + (if BuildSkips(c) then {} else {c.annotation.value.name})
  {
    var t := classes + [c];
    assert forall i :: 0 <= i < |classes| ==> t[i] == classes[i];
    assert t[|classes|] == c;
  }

  /** The class that registers name n last: later accepted classes with that name replace earlier ones. */
  function LastAccepted(classes: seq<CommandClass>, n: string): (c: CommandClass)
    requires n in RegisteredNames(classes)
    ensures c in classes && !BuildSkips(c) && c.annotation.value.name == n
  {
    var p := classes[..|classes| - 1];
    var last := classes[|classes| - 1];
    assert classes == p + [last];
    RegisteredNamesAppend(p, last);
    if !BuildSkips(last) && last.annotation.value.name == n then last
    else LastAccepted(p, n)
  }

  /** Registering one more class changes the last accepted class only for that class's name. */
  lemma LastAcceptedStep(classes: seq<CommandClass>, k: nat, n: string)
    requires k < |classes| && n in RegisteredNames(classes[..k + 1])
    ensures var c := classes[k];
      if !BuildSkips(c) && c.annotation.value.name == n then LastAccepted(classes[..k + 1], n) == c
      else n in RegisteredNames(classes[..k]) && LastAccepted(classes[..k + 1], n) == LastAccepted(classes[..k], n)
  {
    var t := classes[..k + 1];
    var c := classes[k];
    assert t == classes[..k] + [c];
    assert t[..|t| - 1] == classes[..k];
    RegisteredNamesAppend(classes[..k], c);
    if BuildSkips(c) || c.annotation.value.name != n {
      assert n in RegisteredNames(classes[..k]);
    }
  }

  /**
   * The registry maps before and after adding classes[k], on top of a starting registry:
   * the key set grows by the names registered, entries of other names stay.
   */
  lemma RegistryStep(classes: seq<CommandClass>, k: nat, start: map<string, CommandSummary>,
    before: map<string, CommandSummary>, after: map<string, CommandSummary>)
    requires k < |classes|
    requires before.Keys == start.Keys + RegisteredNames(classes[..k])
    requires forall n :: n in start && n !in RegisteredNames(classes[..k]) ==> before[n] == start[n]
    requires BuildSkips(classes[k]) ==> after == before
    requires !BuildSkips(classes[k]) ==>
      var n := classes[k].annotation.value.name;
      n in after && after == before[n := after[n]]
    ensures after.Keys == start.Keys + RegisteredNames(classes[..k + 1])
    ensures forall n :: n in start && n !in RegisteredNames(classes[..k + 1]) ==> after[n] == start[n]
    ensures forall n :: n in RegisteredNames(classes[..k + 1]) ==>
      (!BuildSkips(classes[k]) && classes[k].annotation.value.name == n) || (n in before && after[n] == before[n])
  {
    var c := classes[k];
    assert classes[..k + 1] == classes[..k] + [c];
    RegisteredNamesAppend(classes[..k], c);
  }

  /** The summary buildSubCommand makes for cls, with its instance and argument list as they were built. */
  ghost predicate Describes(summary: CommandSummary, cls: CommandClass)
    reads summary.instance, summary.args
  {
    && cls.annotation.Some?
    && summary.name == cls.annotation.value.name
    && summary.description == cls.annotation.value.description
    && summary.options == DeclaredOptions(cls.fields)
    && summary.args.arguments == DeclaredArguments(cls.fields)
    && summary.args.Valid()
    && summary.instance.fields == cls.defaults
  }

  class CommandSet {
    const applicationName: string
    var subCommands: map<string, CommandSummary>

    /** Every sub command is registered under its own name. */
    ghost predicate Valid()
      reads this
    {
      forall n :: n in subCommands ==> subCommands[n].name == n
    }

    constructor (name: string)
      ensures applicationName == name && subCommands == map[] && Valid()
    {
      applicationName := name;
      subCommands := map[];
    }

    /** addSubCommand(CommandSummary): null is ignored; otherwise the summary replaces any under its name. */
    method AddSubCommand(subCommand: Option<CommandSummary>)
      requires Valid()
      modifies this
      ensures Valid()
      ensures subCommand.None? ==> subCommands == old(subCommands)
      ensures subCommand.Some? ==> subCommands == old(subCommands)[subCommand.value.name := subCommand.value]
    {
      if subCommand.Some? {
        subCommands := subCommands[subCommand.value.name := subCommand.value];
      }
    }

    /** addSubCommand(Class): registers the class's summary unless buildSubCommand rejects it. */
    method AddSubCommandClass(cls: CommandClass)
      requires Valid()
      modifies this
      ensures Valid()
      ensures BuildSkips(cls) ==> subCommands == old(subCommands)
      ensures !BuildSkips(cls) ==>
        var n := cls.annotation.value.name;
        && n in subCommands && subCommands == old(subCommands)[n := subCommands[n]]
        && Describes(subCommands[n], cls)
        && fresh(subCommands[n].instance) && fresh(subCommands[n].args)
    {
      var summary := BuildSubCommand(cls);
      AddSubCommand(summary);
    }

    /** addSubCommands: registers the classes in order; a rejected class is skipped. */
    method AddSubCommands(classes: seq<CommandClass>)
      requires Valid()
      modifies this
      ensures Valid()
      ensures subCommands.Keys == old(subCommands.Keys) + RegisteredNames(classes)
      ensures forall n :: n in RegisteredNames(classes) ==> Describes(subCommands[n], LastAccepted(classes, n))
      ensures forall n :: n in old(subCommands) && n !in RegisteredNames(classes) ==> subCommands[n] == old(subCommands)[n]
    {
      for k := 0 to |classes|
        invariant Valid()
        invariant subCommands.Keys == old(subCommands.Keys) + RegisteredNames(classes[..k])
        invariant forall n :: n in RegisteredNames(classes[..k]) ==> Describes(subCommands[n], LastAccepted(classes[..k], n))
        invariant forall n :: n in old(subCommands) && n !in RegisteredNames(classes[..k]) ==> subCommands[n] == old(subCommands)[n]
      {
        AddOneClass(classes, k, old(subCommands));
      }
      assert classes[..|classes|] == classes;
    }

    /**
     * One step of addSubCommands: the k-th class is added to what the first k registered
     * on top of the registry `start` the call began with.
     */
    method AddOneClass(classes: seq<CommandClass>, k: nat, ghost start: map<string, CommandSummary>)
      requires k < |classes| && Valid()
      requires subCommands.Keys == start.Keys + RegisteredNames(classes[..k])
      requires forall n :: n in RegisteredNames(classes[..k]) ==> Describes(subCommands[n], LastAccepted(classes[..k], n))
      requires forall n :: n in start && n !in RegisteredNames(classes[..k]) ==> subCommands[n] == start[n]
      modifies this
      ensures Valid()
      ensures subCommands.Keys == start.Keys + RegisteredNames(classes[..k + 1])
      ensures forall n :: n in RegisteredNames(classes[..k + 1]) ==> Describes(subCommands[n], LastAccepted(classes[..k + 1], n))
      ensures forall n :: n in start && n !in RegisteredNames(classes[..k + 1]) ==> subCommands[n] == start[n]
    {
      var c := classes[k];
      ghost var before := subCommands;
      AddSubCommandClass(c);
      RegistryStep(classes, k, start, before, subCommands);
      forall n | n in RegisteredNames(classes[..k + 1])
        ensures Describes(subCommands[n], LastAccepted(classes[..k + 1], n))
      {
        LastAcceptedStep(classes, k, n);
      }
    }

    /** The instances of the registered sub commands: what a run may change. */
    function Instances(): set<object>
      reads this
    {
      set n | n in subCommands :: subCommands[n].instance
    }

    /** invoke(String[]): routes the command line and runs the selected sub command on the remaining words. */
    method Invoke(args: seq<string>, parser: OptionParser, convert: Converter, handler: Handler)
      returns (action: Action, outcome: Option<RunOutcome>)
      requires Valid()
      modifies Instances()
      ensures action == Route(args, subCommands.Keys)
      ensures outcome.Some? <==> action.Run?
      ensures action.Run? ==>
        var c := subCommands[action.name];
        c.name == action.name
        && outcome.value == RunSpec(c.options, c.args.arguments, old(c.instance.fields), args[1..], parser, convert, handler)
        && c.instance.fields == outcome.value.fields
      ensures subCommands == old(subCommands)
      ensures forall n ::
        n in subCommands && (action.Run? ==> subCommands[n].instance != subCommands[action.name].instance)
        ==> subCommands[n].instance.fields == old(subCommands[n].instance.fields)
    {
      action := Route(args, subCommands.Keys);
      if action.Run? {
        var command := subCommands[action.name];
        var o := RunSubCommand(command, action.rest, parser, convert, handler);
        outcome := Some(o);
      } else {
        outcome := None;
      }
    }
  }
}
