/**
 * How CommandSet turns annotated fields into descriptors (extractArgument,
 * extractOption) and writes parsed values back into a command instance
 * (injectArguments, injectOptions). Reflection is replaced by a map from
 * field to value; the option parser's result is taken as given.
 */
module Injection {
  import opened Values
  import opened Descriptors
  import ArgumentList
  import Context
  import Builder
  import Text

  /** `@Arg(name, optional, isVararg, type)`. */
  datatype ArgAnnotation = ArgAnnotation(name: string, optional: bool, isVararg: bool, typ: TypeTag)

  /** `@Opt(opt, longOpt, argName, description, required)`. */
  datatype OptAnnotation = OptAnnotation(opt: string, longOpt: string, argName: string, description: string, required: bool)

  /** A declared field of a command class with the annotations it carries. */
  datatype FieldDecl = FieldDecl(id: FieldId, typ: TypeTag, opt: Option<OptAnnotation>, arg: Option<ArgAnnotation>)

  /** The part of a commons-cli Option the framework reads, and the field it was made from. */
  datatype OptionDesc = OptionDesc(
    opt: string,
    longOpt: Option<string>,
    description: string,
    argName: Option<string>,
    slot: FieldId,
    hasArg: bool,
    hasValueSeparator: bool,
    required: bool,
    typ: TypeTag)

  predicate IsBooleanType(t: TypeTag) {
    t == BooleanPrimitive || t == BooleanBoxed
  }

  predicate IsBlank(s: string) {
    Text.Trim(s) == ""
  }

  /**
   * extractOption: an option takes a value exactly when its field is not boolean or Boolean;
   * a valued option is shown under the annotation's argName, or under the field type's simple
   * name in lower case when that is blank; a blank longOpt is not set.
   */
  function ExtractOption(field: FieldDecl, ann: OptAnnotation): (o: OptionDesc)
    ensures o.hasArg <==> !IsBooleanType(field.typ)
    ensures o.argName.Some? <==> o.hasArg
    ensures o.hasArg && !IsBlank(ann.argName) ==> o.argName == Some(ann.argName)
    ensures o.hasArg && IsBlank(ann.argName) ==> o.argName == Some(Text.ToLower(field.typ.simpleName))
    ensures o.hasArg && IsBlank(ann.argName) ==>
      |o.argName.value| == |field.typ.simpleName| && Text.HasNoUpper(o.argName.value)
    ensures o.longOpt.Some? <==> !IsBlank(ann.longOpt)
    ensures o.longOpt.Some? ==> o.longOpt.value == ann.longOpt
    ensures !o.hasValueSeparator
    ensures o.slot == field.id && o.opt == ann.opt && o.description == ann.description
    ensures o.required == ann.required && o.typ == field.typ
  {
    var hasArg := !IsBooleanType(field.typ);
    var argName :=
      if !hasArg then None
      else if IsBlank(ann.argName) then Some(Text.ToLower(field.typ.simpleName))
      else Some(ann.argName);
    var longOpt := if IsBlank(ann.longOpt) then None else Some(ann.longOpt);
    OptionDesc(ann.opt, longOpt, ann.description, argName, field.id, hasArg, false, ann.required, field.typ)
  }

  /**
   * Character.isJavaIdentifierPart on ASCII: letters, digits, '_', '$' and the control
   * characters Java ignores inside identifiers. Every character above U+007E is taken as
   * accepted.
   */
  predicate IsOptionNameChar(c: char) {
    || ('a' <= c <= 'z') || ('A' <= c <= 'Z') || ('0' <= c <= '9') || c == '_' || c == '$'
    || c as int <= 8 || (14 <= c as int <= 27) || c as int >= 127
  }

  /**
   * The check commons-cli makes on an option name when OptionBuilder.create builds the
   * Option: a one-character name may also be ' ', '?' or '@'; every character of any
   * other name must be an identifier character. A name that fails it makes create throw
   * an IllegalArgumentException.
   */
  predicate ValidOptName(opt: string) {
    if |opt| == 1 then IsOptionNameChar(opt[0]) || opt[0] == ' ' || opt[0] == '?' || opt[0] == '@'
    else forall i :: 0 <= i < |opt| ==> IsOptionNameChar(opt[i])
  }

  /** A field whose @Opt name OptionBuilder.create rejects. */
  predicate RejectedOption(f: FieldDecl) {
    f.opt.Some? && !ValidOptName(f.opt.value.opt)
  }

  /** A dash inside a longer name is rejected; a single letter, '?' or a name of letters and '_' is accepted. */
  lemma OptNameExamples()
    ensures !ValidOptName("dry-run")
    ensures ValidOptName("v") && ValidOptName("?") && ValidOptName("dry_run")
    ensures !ValidOptName("-")
  {
    assert !IsOptionNameChar("dry-run"[3]);
  }

  /** A blank annotation string is one made only of characters at or below U+0020. */
  lemma BlankMeansInvisible(s: string)
    ensures IsBlank(s) <==> forall i :: 0 <= i < |s| ==> Text.IsTrimmable(s[i])
  {
    Text.TrimBlank(s);
  }

  /** The argument extractArgument builds for a field. */
  function ArgumentFor(field: FieldDecl, ann: ArgAnnotation): Argument {
    Argument(Some(field.id), Some(ann.name), Some(if ann.isVararg then ann.typ else field.typ), !ann.optional, ann.isVararg)
  }

  /**
   * extractArgument: named after the annotation, required unless optional, and typed by the
   * annotation's type for a vararg (the element type) or by the field's own type otherwise.
   */
  method ExtractArgument(field: FieldDecl, ann: ArgAnnotation) returns (a: Argument)
    ensures a.slot == Some(field.id) && a.name == Some(ann.name)
    ensures a.required == !ann.optional && a.vararg == ann.isVararg
    ensures a.typ == Some(if ann.isVararg then ann.typ else field.typ)
    ensures a == ArgumentFor(field, ann)
  {
    var builder := new Builder.ArgumentBuilder(field.id);
    var _ := builder.WithArgName(Some(ann.name));
    var _ := builder.SetVararg(ann.isVararg);
    var _ := builder.SetRequired(!ann.optional);
    var _ := builder.WithType(Some(if ann.isVararg then ann.typ else field.typ));
    a := builder.Create();
  }

  /** A command object: the current value of each of its fields. */
  class CommandInstance {
    var fields: map<FieldId, Value>

    constructor (defaults: map<FieldId, Value>)
      ensures fields == defaults
    {
      fields := defaults;
    }
  }

  /** What the option parser hands back: leftover positional tokens and the options it saw. */
  datatype CommandLine = CommandLine(
    argList: seq<string>,
    present: set<string>,
    objects: map<string, Value>,
    valueLists: map<string, seq<string>>)

  /** getOptionObject: null unless the parser produced an object for the option. */
  function OptionObject(cl: CommandLine, opt: string): Value {
    if opt in cl.objects then cl.objects[opt] else Null
  }

  /** getOptionValues: the option's values as a String[], or null. */
  function OptionValues(cl: CommandLine, opt: string): Value {
    if opt in cl.valueLists then
      List(seq(|cl.valueLists[opt]|, i requires 0 <= i < |cl.valueLists[opt]| => Str(cl.valueLists[opt][i])))
    else Null
  }

  /** The fields map agrees with another one at slot s. */
  predicate AgreesAt(m: map<FieldId, Value>, n: map<FieldId, Value>, s: FieldId) {
    (s in m <==> s in n) && (s in m ==> m[s] == n[s])
  }

  // ---------------------------------------------------------------------
  // injectArguments

  /** The fields after an injection pass, and whether every write went through. */
  datatype WriteResult = WriteResult(fields: map<FieldId, Value>, ok: bool)

  /** Whether injecting this argument writes its field. */
  predicate Writes(arg: Argument, b: Context.Binding, convert: Converter) {
    arg.vararg || b.Object(arg, convert) != Null
  }

  /** The value injection writes for an argument that is written. */
  function Injected(arg: Argument, b: Context.Binding, convert: Converter): Value {
    if arg.vararg then List(b.Objects(arg, convert)) else b.Object(arg, convert)
  }

  /**
   * injectArguments: a vararg's field always receives the list of converted objects; a
   * scalar's field only a non-null object. Writing through a missing field stops with an
   * exception, leaving the writes already made.
   */
  function InjectArgumentsSpec(fields: map<FieldId, Value>, args: seq<Argument>, b: Context.Binding, convert: Converter): WriteResult
    decreases |args|
  {
    if args == [] then WriteResult(fields, true)
    else
      var arg := args[0];
      if !Writes(arg, b, convert) then InjectArgumentsSpec(fields, args[1..], b, convert)
      else if arg.slot.None? then WriteResult(fields, false)
      else
        InjectArgumentsSpec(fields[arg.slot.value := Injected(arg, b, convert)], args[1..], b, convert)
  }

  /** Injection fails exactly when some argument that would be written has no field. */
  lemma {:induction false} ArgumentInjectionFails(fields: map<FieldId, Value>, args: seq<Argument>, b: Context.Binding, convert: Converter)
    ensures !InjectArgumentsSpec(fields, args, b, convert).ok
      <==> exists k :: 0 <= k < |args| && args[k].slot.None? && Writes(args[k], b, convert)
    decreases |args|
  {
    if args != [] {
      var arg := args[0];
      var rest := args[1..];
      assert forall k :: 0 <= k < |rest| ==> rest[k] == args[k + 1];
      if !Writes(arg, b, convert) {
        ArgumentInjectionFails(fields, rest, b, convert);
        if exists k :: 0 <= k < |args| && args[k].slot.None? && Writes(args[k], b, convert) {
          var k :| 0 <= k < |args| && args[k].slot.None? && Writes(args[k], b, convert);
          assert rest[k - 1] == args[k];
        }
      } else if arg.slot.Some? {
        ArgumentInjectionFails(fields[arg.slot.value := Injected(arg, b, convert)], rest, b, convert);
        if exists k :: 0 <= k < |args| && args[k].slot.None? && Writes(args[k], b, convert) {
          var k :| 0 <= k < |args| && args[k].slot.None? && Writes(args[k], b, convert);
          assert rest[k - 1] == args[k];
        }
      }
    }
  }

  /**
   * Defaults survive: a field that only null-valued scalar arguments target (or none at all)
   * keeps its value, whether or not injection completes.
   */
  lemma {:induction false} DefaultsSurvive(fields: map<FieldId, Value>, args: seq<Argument>, b: Context.Binding, convert: Converter, s: FieldId)
    requires forall k :: 0 <= k < |args| && args[k].slot == Some(s) ==> !Writes(args[k], b, convert)
    ensures AgreesAt(InjectArgumentsSpec(fields, args, b, convert).fields, fields, s)
    decreases |args|
  {
    if args != [] {
      var arg := args[0];
      var rest := args[1..];
      assert forall k :: 0 <= k < |rest| ==> rest[k] == args[k + 1];
      if !Writes(arg, b, convert) {
        DefaultsSurvive(fields, rest, b, convert, s);
      } else if arg.slot.Some? {
        DefaultsSurvive(fields[arg.slot.value := Injected(arg, b, convert)], rest, b, convert, s);
      }
    }
  }

  /**
   * When injection completes, the last argument written to a field decides its value: for a
   * vararg the list of its objects (possibly empty), for a scalar its non-null object.
   */
  lemma {:induction false} LastWriteWins(fields: map<FieldId, Value>, args: seq<Argument>, b: Context.Binding, convert: Converter, k: nat)
    requires k < |args| && args[k].slot.Some? && Writes(args[k], b, convert)
    requires forall j :: k < j < |args| && args[j].slot == args[k].slot ==> !Writes(args[j], b, convert)
    requires InjectArgumentsSpec(fields, args, b, convert).ok
    ensures var r := InjectArgumentsSpec(fields, args, b, convert).fields;
      args[k].slot.value in r && r[args[k].slot.value] == Injected(args[k], b, convert)
    decreases |args|
  {
    var arg := args[0];
    var rest := args[1..];
    assert forall j :: 0 <= j < |rest| ==> rest[j] == args[j + 1];
    if k == 0 {
      var s := arg.slot.value;
      var f' := fields[s := Injected(arg, b, convert)];
      DefaultsSurvive(f', rest, b, convert, s);
    } else if !Writes(arg, b, convert) {
      LastWriteWins(fields, rest, b, convert, k - 1);
    } else {
      LastWriteWins(fields[arg.slot.value := Injected(arg, b, convert)], rest, b, convert, k - 1);
    }
  }

  /** A vararg's field is written even when its list is empty. */
  lemma VarargAlwaysWritten(fields: map<FieldId, Value>, args: seq<Argument>, b: Context.Binding, convert: Converter, k: nat)
    requires k < |args| && args[k].vararg && args[k].slot.Some?
    requires forall j :: k < j < |args| && args[j].slot == args[k].slot ==> !Writes(args[j], b, convert)
    requires InjectArgumentsSpec(fields, args, b, convert).ok
    ensures var r := InjectArgumentsSpec(fields, args, b, convert).fields;
      args[k].slot.value in r && r[args[k].slot.value] == List(b.Objects(args[k], convert))
  {
    LastWriteWins(fields, args, b, convert, k);
  }

  /** injectArguments, walking the declared arguments in order. */
  method InjectArguments(arguments: ArgumentList.Arguments, input: Context.CommandContext, instance: CommandInstance, convert: Converter)
    returns (ok: bool)
    modifies instance
    ensures WriteResult(instance.fields, ok) == InjectArgumentsSpec(old(instance.fields), arguments.arguments, input.State(), convert)
  {
    var args := arguments.arguments;
    var b := input.State();
    for k := 0 to |args|
      invariant InjectArgumentsSpec(old(instance.fields), args, b, convert)
        == InjectArgumentsSpec(instance.fields, args[k..], b, convert)
    {
      var arg := args[k];
      assert args[k..][1..] == args[k + 1..];
      if arg.vararg {
        var values := input.GetArgObjects(arg, convert);
        if arg.slot.None? {
          return false;
        }
        instance.fields := instance.fields[arg.slot.value := List(values)];
      } else {
        var value := b.Object(arg, convert);
        if value != Null {
          if arg.slot.None? {
            return false;
          }
          instance.fields := instance.fields[arg.slot.value := value];
        }
      }
    }
    return true;
  }

  // ---------------------------------------------------------------------
  // injectOptions

  /**
   * Field.setBoolean succeeds only on a field of the primitive type boolean: reflection does
   * not box, so on a java.lang.Boolean field, the other kind extractOption makes a flag, it
   * throws an IllegalArgumentException.
   */
  predicate SetBooleanAccepts(o: OptionDesc) {
    o.typ == BooleanPrimitive
  }

  /** A flag given on the command line whose field setBoolean refuses: injectOptions throws on it. */
  predicate RefusedFlag(o: OptionDesc, cl: CommandLine) {
    o.opt in cl.present && !o.hasArg && !SetBooleanAccepts(o)
  }

  /** The value injectOptions writes for an option that is present. */
  function OptionWrite(o: OptionDesc, cl: CommandLine): Value {
    if !o.hasArg then Bool(true)
    else if o.hasValueSeparator then OptionValues(cl, o.opt)
    else OptionObject(cl, o.opt)
  }

  /**
   * injectOptions: an option's field is written only when the option is present on the
   * command line. A present flag whose field setBoolean refuses stops the pass with an
   * exception, leaving the writes already made.
   */
  function InjectOptionsSpec(fields: map<FieldId, Value>, options: seq<OptionDesc>, cl: CommandLine): WriteResult
    decreases |options|
  {
    if options == [] then WriteResult(fields, true)
    else
      var o := options[0];
      if o.opt !in cl.present then InjectOptionsSpec(fields, options[1..], cl)
      else if RefusedFlag(o, cl) then WriteResult(fields, false)
      else InjectOptionsSpec(fields[o.slot := OptionWrite(o, cl)], options[1..], cl)
  }

  /** Option injection fails exactly when some option is a refused flag. */
  lemma {:induction false} OptionInjectionFails(fields: map<FieldId, Value>, options: seq<OptionDesc>, cl: CommandLine)
    ensures !InjectOptionsSpec(fields, options, cl).ok
      <==> exists k :: 0 <= k < |options| && RefusedFlag(options[k], cl)
    decreases |options|
  {
    if options != [] {
      var o := options[0];
      var rest := options[1..];
      assert forall k :: 0 <= k < |rest| ==> rest[k] == options[k + 1];
      if !RefusedFlag(o, cl) {
        var f' := if o.opt in cl.present then fields[o.slot := OptionWrite(o, cl)] else fields;
        OptionInjectionFails(f', rest, cl);
        if exists k :: 0 <= k < |options| && RefusedFlag(options[k], cl) {
          var k :| 0 <= k < |options| && RefusedFlag(options[k], cl);
          assert rest[k - 1] == options[k];
        }
      }
    }
  }

  /** A field that no option targets is left alone, whether or not the pass completes. */
  lemma {:induction false} UntargetedFieldKept(fields: map<FieldId, Value>, options: seq<OptionDesc>, cl: CommandLine, s: FieldId)
    requires forall j :: 0 <= j < |options| ==> options[j].slot != s
    ensures AgreesAt(InjectOptionsSpec(fields, options, cl).fields, fields, s)
    decreases |options|
  {
    if options != [] {
      var o := options[0];
      if !RefusedFlag(o, cl) {
        var f' := if o.opt in cl.present then fields[o.slot := OptionWrite(o, cl)] else fields;
        UntargetedFieldKept(f', options[1..], cl, s);
      }
    }
  }

  /**
   * The field of the k-th option: when the pass completes, a present option has written
   * its value (true for a flag, the values or object for a valued option); a present
   * refused flag makes the pass fail; an absent option leaves its field at its default.
   */
  lemma {:induction false} OptionField(fields: map<FieldId, Value>, options: seq<OptionDesc>, cl: CommandLine, k: nat)
    requires k < |options|
    requires forall j :: 0 <= j < |options| && j != k ==> options[j].slot != options[k].slot
    ensures var r := InjectOptionsSpec(fields, options, cl);
      var o := options[k];
      && (o.opt in cl.present && r.ok ==> o.slot in r.fields && r.fields[o.slot] == OptionWrite(o, cl))
      && (RefusedFlag(o, cl) ==> !r.ok)
      && (o.opt !in cl.present ==> AgreesAt(r.fields, fields, o.slot))
    decreases |options|
  {
    var o := options[0];
    var rest := options[1..];
    var f' := if o.opt in cl.present then fields[o.slot := OptionWrite(o, cl)] else fields;
    assert forall j :: 0 <= j < |rest| ==> rest[j] == options[j + 1];
    if RefusedFlag(o, cl) {
    } else if k == 0 {
      UntargetedFieldKept(f', rest, cl, o.slot);
    } else {
      OptionField(f', rest, cl, k - 1);
    }
  }

  /**
   * A boolean field's option is a flag. Given on the command line, it sets a primitive
   * boolean field to true, and makes injectOptions throw for a java.lang.Boolean field;
   * absent, it leaves the field untouched.
   */
  lemma FlagField(fields: map<FieldId, Value>, options: seq<OptionDesc>, cl: CommandLine, k: nat)
    requires k < |options| && IsBooleanType(options[k].typ) && !options[k].hasArg
    requires forall j :: 0 <= j < |options| && j != k ==> options[j].slot != options[k].slot
    ensures var r := InjectOptionsSpec(fields, options, cl);
      var o := options[k];
      && (o.opt in cl.present && o.typ == BooleanPrimitive && r.ok ==> o.slot in r.fields && r.fields[o.slot] == Bool(true))
      && (o.opt in cl.present && o.typ == BooleanBoxed ==> !r.ok)
      && (o.opt !in cl.present ==> AgreesAt(r.fields, fields, o.slot))
  {
    OptionField(fields, options, cl, k);
  }

  /** The option extractOption makes for a field is refused on the command line exactly when its field is a java.lang.Boolean. */
  lemma ExtractedFlagRefused(field: FieldDecl, ann: OptAnnotation, cl: CommandLine)
    ensures RefusedFlag(ExtractOption(field, ann), cl) <==> field.typ == BooleanBoxed && ann.opt in cl.present
  {
  }

  /** injectOptions, walking the declared options in order. */
  method InjectOptions(options: seq<OptionDesc>, cl: CommandLine, instance: CommandInstance) returns (ok: bool)
    modifies instance
    ensures WriteResult(instance.fields, ok) == InjectOptionsSpec(old(instance.fields), options, cl)
  {
    for k := 0 to |options|
      invariant InjectOptionsSpec(old(instance.fields), options, cl)
        == InjectOptionsSpec(instance.fields, options[k..], cl)
    {
      var option := options[k];
      assert options[k..][1..] == options[k + 1..];
      if option.hasArg {
        if option.opt !in cl.present {
          continue;
        }
        if option.hasValueSeparator {
          instance.fields := instance.fields[option.slot := OptionValues(cl, option.opt)];
        } else {
          instance.fields := instance.fields[option.slot := OptionObject(cl, option.opt)];
        }
      } else {
        if option.opt in cl.present {
          if option.typ != BooleanPrimitive {
            return false;
          }
          instance.fields := instance.fields[option.slot := Bool(true)];
        }
      }
    }
    return true;
  }

  // ---------------------------------------------------------------------
  // What injectOptions evidently intends for a java.lang.Boolean flag

  /** injectOptions as its flag branch evidently intends: a present flag sets its field to true, whatever its boolean kind. */
  function IntendedInjectOptions(fields: map<FieldId, Value>, options: seq<OptionDesc>, cl: CommandLine): map<FieldId, Value>
    decreases |options|
  {
    if options == [] then fields
    else
      var o := options[0];
      var f' := if o.opt in cl.present then fields[o.slot := OptionWrite(o, cl)] else fields;
      IntendedInjectOptions(f', options[1..], cl)
  }

  /** Under the intended rule every present flag ends up true and every absent option leaves its field alone. */
  lemma {:induction false} IntendedFlagSet(fields: map<FieldId, Value>, options: seq<OptionDesc>, cl: CommandLine, k: nat)
    requires k < |options|
    requires forall j :: 0 <= j < |options| && j != k ==> options[j].slot != options[k].slot
    ensures var r := IntendedInjectOptions(fields, options, cl);
      var o := options[k];
      && (o.opt in cl.present ==> o.slot in r && r[o.slot] == OptionWrite(o, cl))
      && (o.opt in cl.present && !o.hasArg ==> r[o.slot] == Bool(true))
      && (o.opt !in cl.present ==> AgreesAt(r, fields, o.slot))
    decreases |options|
  {
    var o := options[0];
    var rest := options[1..];
    var f' := if o.opt in cl.present then fields[o.slot := OptionWrite(o, cl)] else fields;
    assert forall j :: 0 <= j < |rest| ==> rest[j] == options[j + 1];
    if k == 0 {
      IntendedUntargetedKept(f', rest, cl, o.slot);
    } else {
      IntendedFlagSet(f', rest, cl, k - 1);
    }
  }

  lemma {:induction false} IntendedUntargetedKept(fields: map<FieldId, Value>, options: seq<OptionDesc>, cl: CommandLine, s: FieldId)
    requires forall j :: 0 <= j < |options| ==> options[j].slot != s
    ensures AgreesAt(IntendedInjectOptions(fields, options, cl), fields, s)
    decreases |options|
  {
    if options != [] {
      var o := options[0];
      var f' := if o.opt in cl.present then fields[o.slot := OptionWrite(o, cl)] else fields;
      IntendedUntargetedKept(f', options[1..], cl, s);
    }
  }

  /** Where the code as written completes, it agrees with the intended rule: the two differ only on refused flags. */
  lemma {:induction false} AsWrittenAgreesWhenComplete(fields: map<FieldId, Value>, options: seq<OptionDesc>, cl: CommandLine)
    requires InjectOptionsSpec(fields, options, cl).ok
    ensures InjectOptionsSpec(fields, options, cl).fields == IntendedInjectOptions(fields, options, cl)
    decreases |options|
  {
    if options != [] {
      var o := options[0];
      var f' := if o.opt in cl.present then fields[o.slot := OptionWrite(o, cl)] else fields;
      AsWrittenAgreesWhenComplete(f', options[1..], cl);
    }
  }

  /**
   * `@Opt(opt = "v") Boolean verbose` run with `-v`: extractOption makes it a flag, and
   * injectOptions, as written, throws where the intended rule sets the field to true.
   */
  lemma BoxedFlagRefusedExample()
    ensures var field := FieldDecl(0, BooleanBoxed, Some(OptAnnotation("v", "", "", "", false)), None);
      var o := ExtractOption(field, field.opt.value);
      var cl := CommandLine([], {"v"}, map[], map[]);
      && !InjectOptionsSpec(map[0 := Null], [o], cl).ok
      && IntendedInjectOptions(map[0 := Null], [o], cl) == map[0 := Bool(true)]
  {
    var field := FieldDecl(0, BooleanBoxed, Some(OptAnnotation("v", "", "", "", false)), None);
    var o := ExtractOption(field, field.opt.value);
    assert IsBlank("") by { assert Text.Trim("") == ""; }
    assert !o.hasArg && o.opt == "v";
  }
}
