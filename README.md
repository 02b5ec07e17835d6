# cli-util sub-command framework — a Dafny model

cli-util is a small Java framework for command-line programs made of sub commands. A command class declares its options (`@Opt`) and positional arguments (`@Arg`) as annotated fields. `CommandSet` turns each class into a sub command and registers it under its name. `invoke` then chooses what to do from the first word of the command line:
- show the general help;
- show one command's help;
- report an unknown command;
- run a command.

Running a command goes through five stages, in this order:
1. commons-cli parses the options;
2. `CommandContext` binds the remaining words to the declared arguments;
3. the bound values are written into the command's argument fields;
4. the option values are written into its option fields;
5. `exec` is called.

The model covers:
- **Argument descriptors and their usage rendering** (`descriptors.dfy`, module `Descriptors`).
- **The append-only argument list and its seal** (`arguments.dfy`, module `ArgumentList`, class `Arguments`). The list is sealed by its first optional-or-vararg argument.
- **The argument builder** (`builder.dfy`, module `Builder`).
- **The positional binder and its accessors** (`context.dfy`, module `Context`):
  - `Bind` states what `parse()` means as a function of the words and the argument list;
  - `CommandContext.Parse` is the two loops of the source, proved to compute `Bind`.
- **`CommandSet`'s injection rules and descriptor extraction** (`injection.dfy`, module `Injection`).
- **`CommandSet`'s build, routing, run and registry** (`commandset.dfy`, module `Commands`).
- **Shared pieces**: `Option`/`Result` for Java's null and exceptions, field identities, type objects and values (`values.dfy`). Also the bits of `java.lang.String` the code relies on: decimal rendering of an int, `trim()`, `toLowerCase()` (`text.dfy`).

## How Java is represented

**Objects and reflection**
- Java object identity is replaced by structural equality. Two `Argument`s made from different fields differ in their `slot`.
- Everything reflection does is replaced by data:
  - a command class is a `CommandClass` value: its annotation, its declared fields, whether `newInstance()` succeeds, and its default field values;
  - a command instance is a `CommandInstance` whose `fields` map takes each field to its current value.
- `Argument` carries an extra `slot: Option<FieldId>`: the field it is injected into. `ArgumentBuilder.create()` and `injectArguments` use that field, but `Argument.java` has no constructor taking a field and no `getField()`. The two field-less constructors leave `slot` empty.

**External calls taken as function parameters**
- `TypeHandler.createValue` is `Converter`; `None` stands for its ParseException.
- commons-cli's `GnuParser.parse` is `OptionParser`. It yields a `CommandLine` (the leftover words and the options seen) or the message of its ParseException.
- The command's `exec` is a `Handler`. It returns normally, throws a `CommandError` with a message, throws any other `Exception`, or throws a `java.lang.Error` (`ThrewError`; a failed JUnit assertion in a test command is one).

**Construction and exits**
- The Java `CommandContext` constructor runs `parse()`. The model splits this into the constructor plus `Parse()`, which returns the error instead of throwing it.
- `System.exit(1)` and the printed output are not modelled as effects. `RunSubCommand` returns a `RunOutcome` instead: the stages reached, how the run ended (`ExitStatus` gives the forced exit status), and the fields after the run.
- The IllegalStateException from `parse()` is not a ParseException, so `runSubCommand` does not catch it. It is modelled as the `Propagated` ending.
- `injectOptions` sets a flag's field with `Field.setBoolean`, which reflection refuses with an IllegalArgumentException on a `java.lang.Boolean` field. The model keeps this: such a flag, given on the command line, is a `RefusedFlag`, and the run ends with a stack trace and exit status 1 before `exec`. The intended behaviour is stated beside it, in the Findings section.
- `OptionBuilder.create` rejects an option name that is not made of identifier characters with an IllegalArgumentException. `buildSubCommand` catches it and returns null. The model states the check as `ValidOptName`.
- The inner handler of `runSubCommand` catches `Exception`, not `Throwable`. A `java.lang.Error` thrown by `exec` therefore escapes `runSubCommand` and `invoke` with no stack trace printed and no exit. It is modelled as the `Escaped` ending.

## Model

| member | source | states |
|---|---|---|
| Descriptors.FromType | src/main/java/jpbetz/cli/Argument.java:15-17 | `Argument(type)` is unnamed, has that type, is required and not a vararg |
| Descriptors.FromName | src/main/java/jpbetz/cli/Argument.java:19-21 | `Argument(name)` has that name, type String, is required and not a vararg |
| Descriptors.ConstructorQueries | src/main/java/jpbetz/cli/Argument.java:15-40 | hasArgName holds exactly when a name was given; hasType holds for `Argument(name)` and, for `Argument(type)`, exactly when the type is non-null |
| Descriptors.PrintTitle | src/main/java/jpbetz/cli/Argument.java:68-76 | a named title is two characters longer than the name; an unnamed untyped title starts with `ARG` and has more after it |
| Descriptors.PrintUsage | src/main/java/jpbetz/cli/Argument.java:54-66 | the usage is the bare title exactly for a required scalar; an optional argument is bracketed; a vararg ends in `...]` |
| Descriptors.UsageOfSingleValued | src/main/java/jpbetz/cli/Argument.java:61-65 | a required scalar renders as its bare title, an optional one as `[title]` |
| Descriptors.UsageOfVararg | src/main/java/jpbetz/cli/Argument.java:55-60 | a required vararg renders as `title [title...]`, an optional one as `[title...]` |
| Descriptors.UsageShapeRoundTrip | src/main/java/jpbetz/cli/Argument.java:54-66 | the four renderings are distinct: required and vararg can be read back from the usage text |
| Descriptors.TitleOfNamed | src/main/java/jpbetz/cli/Argument.java:69-70 | a named argument's title is `<name>`, and the name can be read back from it |
| Descriptors.TitleOfTyped | src/main/java/jpbetz/cli/Argument.java:71-72 | an unnamed typed argument's title is the type's toString(), whatever the position |
| Descriptors.TitleOfAnonymous | src/main/java/jpbetz/cli/Argument.java:73-75 | an unnamed untyped argument's title is `ARG` followed by decimal digits that read back as the position |
| Text.IntString | src/main/java/jpbetz/cli/Argument.java:74 | `"" + i` is the decimal digits of i, after a minus sign when i is negative, and they read back as the magnitude |
| Text.Decimal | src/main/java/jpbetz/cli/Argument.java:74 | the decimal rendering of an int: non-empty, all digits, no leading zero |
| Text.DecimalRoundTrip | src/main/java/jpbetz/cli/Argument.java:74 | reading the decimal digits back gives the number |
| Text.DecimalInjective | src/main/java/jpbetz/cli/CommandContext.java:61 | distinct counts render differently in the error messages |
| Text.Trim | src/main/java/jpbetz/cli/CommandSet.java:70 | trim() is never longer than its input, and is empty or starts and ends with a character above U+0020 |
| Text.TrimSlice | src/main/java/jpbetz/cli/CommandSet.java:70 | trim() is the slice s[i..j] of the input with only characters at or below U+0020 before i and from j on; with Trim's visible ends this fixes the result |
| Text.TrimBlank | src/main/java/jpbetz/cli/CommandSet.java:283 | trim() yields "" exactly when every character is at or below U+0020 |
| Text.TrimIdempotent | src/main/java/jpbetz/cli/CommandSet.java:70 | trimming twice is trimming once |
| Text.ToLower | src/main/java/jpbetz/cli/CommandSet.java:70 | toLowerCase() keeps the length, replaces each of 'A'..'Z' by the letter at the same place in 'a'..'z', keeps every other character, and leaves no upper-case letter |
| Text.ToLowerOfLower | src/main/java/jpbetz/cli/CommandSet.java:70 | a string without upper-case letters is its own lower case |
| Text.Normalize | src/main/java/jpbetz/cli/CommandSet.java:70 | a command name after toLowerCase().trim() has no upper-case letter and no surrounding blanks |
| Text.NormalizeIdempotent | src/main/java/jpbetz/cli/CommandSet.java:109 | normalising a normalised name changes nothing |
| Values.Raw | src/main/java/jpbetz/cli/CommandContext.java:251 | a String seen as an Object is null exactly when the string is null |
| ArgumentList.TerminalCountZero | src/main/java/jpbetz/cli/Arguments.java:28-33 | a list has no optional-or-vararg argument exactly when it counts zero of them |
| ArgumentList.TerminalCountAppend | src/main/java/jpbetz/cli/Arguments.java:28-33 | appending an argument adds one to the count exactly when it is optional or a vararg |
| ArgumentList.AppendFacts | src/main/java/jpbetz/cli/Arguments.java:27-43 | appending an argument puts it in the name index under its name, adds it to the element set, and seals the list exactly when it or an earlier one is optional or a vararg |
| ArgumentList.NameIndexLookup | src/main/java/jpbetz/cli/Arguments.java:38-40 | the name index knows exactly the names in the list and maps each to its last occurrence, while both entries stay in the list |
| ArgumentList.UsageList | src/main/java/jpbetz/cli/Arguments.java:65-73 | the usage line is empty exactly for an empty list, and otherwise ends with a space |
| ArgumentList.UsageListAppend | src/main/java/jpbetz/cli/Arguments.java:65-73 | appending an argument appends its usage at the next 1-based position followed by a space |
| ArgumentList.UsageExample | src/main/java/jpbetz/cli/Arguments.java:65-73 | a required `<x>` and an optional vararg `<y>` render as `<x> [<y>...] ` |
| ArgumentList.FirstIndex | src/main/java/jpbetz/cli/Arguments.java:57-59 | List.indexOf: the first position holding the element, or -1 exactly when it is absent |
| ArgumentList.Arguments.constructor | src/main/java/jpbetz/cli/Arguments.java:20-25 | a new list is empty, unindexed and unsealed |
| ArgumentList.Arguments.AddArgument | src/main/java/jpbetz/cli/Arguments.java:27-43 | fails exactly for an optional-or-vararg argument on a sealed list, leaving the list, set, index and seal unchanged; otherwise appends one element, returns it, updates the set and the index (named arguments only) and seals on an optional-or-vararg argument; the seal is never cleared and at most one optional-or-vararg argument is ever in the list |
| ArgumentList.Arguments.HasArgument | src/main/java/jpbetz/cli/Arguments.java:45-47 | hasArg(Argument) is membership in the list |
| ArgumentList.Arguments.HasArgNamed | src/main/java/jpbetz/cli/Arguments.java:49-51 | hasArg(String) holds exactly when some argument in the list has that name |
| ArgumentList.Arguments.GetArg | src/main/java/jpbetz/cli/Arguments.java:53-55 | getArg returns the last argument with that name, or null when there is none |
| ArgumentList.Arguments.IndexOf | src/main/java/jpbetz/cli/Arguments.java:57-59 | indexOf gives the first position of the argument, or -1 exactly when it is absent |
| ArgumentList.Arguments.GetUsageArgList | src/main/java/jpbetz/cli/Arguments.java:65-73 | the loop builds exactly the usage line of the list |
| Builder.ArgumentBuilder.constructor | src/main/java/jpbetz/cli/ArgumentBuilder.java:6-14 | a new builder is required, not a vararg, with no name and no type |
| Builder.ArgumentBuilder.WithArgName | src/main/java/jpbetz/cli/ArgumentBuilder.java:20-23 | sets the name only and returns the same builder |
| Builder.ArgumentBuilder.WithType | src/main/java/jpbetz/cli/ArgumentBuilder.java:25-28 | sets the type only and returns the same builder |
| Builder.ArgumentBuilder.SetRequired | src/main/java/jpbetz/cli/ArgumentBuilder.java:30-33 | sets required only and returns the same builder |
| Builder.ArgumentBuilder.SetVararg | src/main/java/jpbetz/cli/ArgumentBuilder.java:35-38 | sets vararg only and returns the same builder |
| Builder.ArgumentBuilder.Create | src/main/java/jpbetz/cli/ArgumentBuilder.java:40-42 | create passes field, name, type, required and vararg through unchanged |
| Builder.DefaultArgument | src/main/java/jpbetz/cli/ArgumentBuilder.java:6-42 | a builder used without setters creates a required, single-valued, unnamed, untyped argument for its field |
| Builder.LastSetterWins | src/main/java/jpbetz/cli/ArgumentBuilder.java:20-38 | each of the four setters called twice: the created argument holds the second value of each, for the builder's field |
| Context.FirstTerminal | src/main/java/jpbetz/cli/CommandContext.java:70-84 | the position where the walk meets its first optional-or-vararg argument: every earlier one is required and single-valued |
| Context.CountArguments | src/main/java/jpbetz/cli/CommandContext.java:45-58 | the counting loop yields the number of required arguments (a required vararg included), whether one is optional and whether one is a vararg |
| Context.RequiredCountAtLeast | src/main/java/jpbetz/cli/CommandContext.java:45-57 | a list whose first k arguments are required counts at least k required arguments |
| Context.RequiredCountAtMost | src/main/java/jpbetz/cli/CommandContext.java:45-57 | the required count is at most the length of the list |
| Context.PrefixBounded | src/main/java/jpbetz/cli/CommandContext.java:76-91 | after the size check the walk's position stays within the tokens, so the `index <= size` guard always holds, `get` is in range and a required vararg never gets an empty list |
| Context.Bind | src/main/java/jpbetz/cli/CommandContext.java:40-101 | on success there are enough tokens, not too many without a vararg, and only the last argument may be optional or a vararg |
| Context.NotEnoughExactly | src/main/java/jpbetz/cli/CommandContext.java:60-62 | "Not enough arguments" is raised exactly when there are fewer tokens than required arguments |
| Context.TooManyExactly | src/main/java/jpbetz/cli/CommandContext.java:58-68 | "Too many arguments" is raised exactly when, with enough tokens and no vararg, there are more than `required + (hasOptional ? 1 : 0)`; never with a vararg |
| Context.FollowerRejected | src/main/java/jpbetz/cli/CommandContext.java:71-74 | once the counts fit, an argument after the first optional-or-vararg one raises the IllegalStateException |
| Context.PrefixValuesAt | src/main/java/jpbetz/cli/CommandContext.java:76-78 | the values bound before the first optional-or-vararg argument are exactly those arguments, each bound to the token at its position |
| Context.RequiredBoundToToken | src/main/java/jpbetz/cli/CommandContext.java:70-81 | a required scalar at position k is bound to tokens[k], which exists |
| Context.VarargReceivesTail | src/main/java/jpbetz/cli/CommandContext.java:86-91 | a vararg at position k receives tokens[k..] in order, size minus k values, at least one when required |
| Context.OptionalBoundIffTokenLeft | src/main/java/jpbetz/cli/CommandContext.java:93-96 | a trailing optional scalar is bound exactly when a token remains, to that token |
| Context.NoVarargNoTail | src/main/java/jpbetz/cli/CommandContext.java:41-42 | without a vararg the vararg list stays the empty list it starts as |
| Context.OnlyRequired | src/main/java/jpbetz/cli/CommandContext.java:60-68 | r required scalars accept exactly r tokens and report the other counts with the right error |
| Context.OptionalVarargTail | src/test/java/jpbetz/cli/ParseTests.java:108-125 | required scalars then an optional vararg: no extra token gives an empty list, not an error; extra tokens all go to the vararg |
| Context.Message | src/main/java/jpbetz/cli/CommandContext.java:61-74 | the three messages start with different letters, and the IllegalStateException's text is the one addArgument uses |
| Context.MessageDeterminesError | src/main/java/jpbetz/cli/CommandContext.java:61-66 | two equal messages come from the same error: the kind, the required or allowed count and the provided count can all be read back |
| Context.HasArgAfterBind | src/main/java/jpbetz/cli/CommandContext.java:178-184 | after a successful parse of distinct arguments, hasArg(Argument) holds for the argument at position k exactly when a token reached position k |
| Context.Binding.Value | src/main/java/jpbetz/cli/CommandContext.java:198-205 | getArgValue is non-null exactly when hasArg holds: a vararg's first value or a scalar's bound value |
| Context.Binding.Values | src/main/java/jpbetz/cli/CommandContext.java:213-219 | getArgValues is a vararg's whole list, a scalar's singleton getArgValue (possibly null) |
| Context.Binding.Object | src/main/java/jpbetz/cli/CommandContext.java:249-261 | getArgObject is the raw value when untyped and null when there is no value or the conversion fails |
| Context.Binding.Objects | src/main/java/jpbetz/cli/CommandContext.java:222-235 | getArgObjects is never longer than getArgValues, and is the raw values when untyped |
| Context.ConvertAll | src/main/java/jpbetz/cli/CommandContext.java:226-234 | the conversion loop keeps at most as many values as it is given |
| Context.ConvertAllAppend | src/main/java/jpbetz/cli/CommandContext.java:226-234 | conversion keeps the input order: converting a concatenation concatenates the conversions |
| Context.ConvertAllTotal | src/main/java/jpbetz/cli/CommandContext.java:226-234 | when every conversion succeeds nothing is dropped and the i-th result converts the i-th value |
| Context.ScalarObjectsAgree | src/main/java/jpbetz/cli/CommandContext.java:222-261 | for a typed bound scalar, getArgObjects is the singleton of getArgObject, or empty and getArgObject null when conversion fails |
| Context.CommandContext.constructor | src/main/java/jpbetz/cli/CommandContext.java:28-32 | the context holds the command line's words and the argument list, with nothing bound yet |
| Context.CommandContext.Parse | src/main/java/jpbetz/cli/CommandContext.java:40-101 | parse fails exactly when Bind fails, with Bind's error, and otherwise leaves exactly Bind's binding in the context |
| Context.CommandContext.HasArgNamed | src/main/java/jpbetz/cli/CommandContext.java:186-190 | hasArg(String) is false for an unknown name and hasArg of the named argument otherwise |
| Context.CommandContext.GetArgValueNamed | src/main/java/jpbetz/cli/CommandContext.java:192-196 | getArgValue(String) is null for an unknown name and the named argument's value otherwise |
| Context.CommandContext.GetArgValuesNamed | src/main/java/jpbetz/cli/CommandContext.java:207-211 | getArgValues(String) is null exactly for an unknown name, and the named argument's values otherwise |
| Context.CommandContext.GetArgObjectNamed | src/main/java/jpbetz/cli/CommandContext.java:263-267 | getArgObject(String) is null for an unknown name and the named argument's object otherwise |
| Context.CommandContext.GetArgObjects | src/main/java/jpbetz/cli/CommandContext.java:222-235 | the loop yields exactly getArgObjects of the binding, never longer than its values |
| Context.CommandContext.GetArgObjectsNamed | src/main/java/jpbetz/cli/CommandContext.java:242-246 | getArgObjects(String) is null exactly for an unknown name, and the named argument's objects otherwise |
| Injection.ExtractOption | src/main/java/jpbetz/cli/CommandSet.java:272-298 | an option takes a value exactly when its field is not boolean or Boolean; a valued option gets the annotation's argName, or the field type's simple name in lower case when that is blank; a blank longOpt is not set; description, required flag and type come from the annotation and the field |
| Injection.BlankMeansInvisible | src/main/java/jpbetz/cli/CommandSet.java:283-290 | a blank annotation string is one made only of characters at or below U+0020 |
| Injection.ExtractArgument | src/main/java/jpbetz/cli/CommandSet.java:246-254 | the argument is named after the annotation, bound to the field, required unless optional, a vararg as annotated, and typed by the annotation for a vararg and by the field otherwise |
| Injection.CommandInstance.constructor | src/main/java/jpbetz/cli/CommandSet.java:138 | a new instance holds the class's default field values |
| Injection.ArgumentInjectionFails | src/main/java/jpbetz/cli/CommandSet.java:231-244 | argument injection stops with an exception exactly when an argument that would be written has no field |
| Injection.DefaultsSurvive | src/main/java/jpbetz/cli/CommandSet.java:238-241 | a field targeted only by scalars whose object is null keeps its value, even when injection stops early |
| Injection.LastWriteWins | src/main/java/jpbetz/cli/CommandSet.java:233-243 | after injection a field holds the value of the last argument written to it |
| Injection.VarargAlwaysWritten | src/main/java/jpbetz/cli/CommandSet.java:234-236 | a vararg's field is always written with its list of objects, even an empty one |
| Injection.InjectArguments | src/main/java/jpbetz/cli/CommandSet.java:231-244 | the loop leaves the fields and the outcome the injection rules describe |
| Injection.OptionInjectionFails | src/main/java/jpbetz/cli/CommandSet.java:222-226 | option injection fails exactly when some option is a flag given on the command line whose field is not a primitive boolean |
| Injection.UntargetedFieldKept | src/main/java/jpbetz/cli/CommandSet.java:207-229 | option injection leaves a field that no option targets unchanged, whether or not it completes |
| Injection.OptionField | src/main/java/jpbetz/cli/CommandSet.java:210-227 | when option injection completes, a present flag has written true and a present valued option its values or object; a present flag on a field other than a primitive boolean makes it fail; an absent option leaves its field at its default |
| Injection.FlagField | src/main/java/jpbetz/cli/CommandSet.java:222-227 | a flag given on the command line sets a primitive boolean field to true and makes injection fail for a java.lang.Boolean field; an absent flag leaves the field untouched |
| Injection.ExtractedFlagRefused | src/main/java/jpbetz/cli/CommandSet.java:275 | the option made for a field is refused on the command line exactly when the field is a java.lang.Boolean and the option is given |
| Injection.InjectOptions | src/main/java/jpbetz/cli/CommandSet.java:207-229 | the loop leaves the fields, and reports the failure, that the option rules describe |
| Injection.OptNameExamples | src/main/java/jpbetz/cli/CommandSet.java:296 | the option-name check rejects `dry-run` and `-` and accepts `v`, `?` and `dry_run` |
| Injection.IntendedFlagSet | src/main/java/jpbetz/cli/CommandSet.java:222-227 | under the intended flag rule a present flag ends up true, a present valued option holds its value, an absent option leaves its field alone |
| Injection.AsWrittenAgreesWhenComplete | src/main/java/jpbetz/cli/CommandSet.java:207-229 | whenever option injection as written completes, its fields are those of the intended rule |
| Injection.BoxedFlagRefusedExample | src/main/java/jpbetz/cli/CommandSet.java:225 | `@Opt(opt="v") Boolean` with `-v`: injection as written fails, the intended rule writes true |
| Commands.TerminalCountGrows | src/main/java/jpbetz/cli/CommandSet.java:147-167 | declaring more fields never removes an optional-or-vararg argument |
| Commands.DeclaredArgumentsHaveFields | src/main/java/jpbetz/cli/CommandSet.java:163-166 | every declared argument is bound to the @Arg field it was extracted from |
| Commands.DeclaredOptionsFromFields | src/main/java/jpbetz/cli/CommandSet.java:147-161 | every declared option is the one extractOption builds for one of the @Opt fields |
| Commands.DeclaredOptionSlotsDistinct | src/main/java/jpbetz/cli/CommandSet.java:147-161 | for distinct declared fields no two declared options write the same field |
| Commands.BuiltOptionField | src/main/java/jpbetz/cli/CommandSet.java:207-229 | for a command built from distinct fields each option comes from its own field, is a flag exactly for a boolean field, and is injected as OptionField says |
| Commands.BuiltArgumentsInjectCleanly | src/main/java/jpbetz/cli/CommandSet.java:236 | injecting the arguments of a built command never writes through a missing field |
| Commands.DeclareArgument | src/main/java/jpbetz/cli/CommandSet.java:163-166 | adding a field's argument fails exactly when it would be the second optional-or-vararg argument, and otherwise appends it |
| Commands.DeclareField | src/main/java/jpbetz/cli/CommandSet.java:157-166 | one field of the loop fails on an option name OptionBuilder.create (line 296) rejects, contributing nothing; otherwise it contributes its option, if any, then its argument, and fails exactly when that is the second optional-or-vararg one |
| Commands.DeclareFields | src/main/java/jpbetz/cli/CommandSet.java:147-167 | the field loop succeeds exactly when no field has both annotations, no option name is rejected and at most one argument is optional or a vararg, and then has collected every option and argument in field order |
| Commands.BuildSubCommand | src/main/java/jpbetz/cli/CommandSet.java:136-179 | null exactly when instantiation fails, @SubCommand is missing, a field has both annotations, OptionBuilder.create rejects an option name, or addArgument rejects an argument; otherwise a fresh instance with the defaults, the annotation's name and description, and the declared options and arguments |
| Commands.Route | src/main/java/jpbetz/cli/CommandSet.java:64-122 | no words gives general help; a first word normalising to "help" gives general help alone or the help of the normalised second word; another registered normalised first word runs with the remaining words; anything else is not found, under the normalised word that was looked up (the second word after "help", the first otherwise) |
| Commands.NotFoundMessage | src/main/java/jpbetz/cli/CommandSet.java:80 | the not-found line is "Command not found: " followed by the name |
| Commands.RoutedNamesAreNormal | src/main/java/jpbetz/cli/CommandSet.java:70 | a name selected by invoke or help is always in normal form |
| Commands.UnreachableName | src/main/java/jpbetz/cli/CommandSet.java:48-84 | a command registered under a name with upper-case letters or surrounding blanks can never be run nor its help shown |
| Commands.DispatchIgnoresCase | src/main/java/jpbetz/cli/CommandSet.java:70-83 | two first words with the same normal form select the same action |
| Commands.ErrorLine | src/main/java/jpbetz/cli/CommandSet.java:194 | the line shown with the help is "error: " followed by the message |
| Commands.ExitStatus | src/main/java/jpbetz/cli/CommandSet.java:181-204 | a forced exit always has status 1, and none happens exactly for a completed run, the escaping IllegalStateException and an escaping Error |
| Commands.ExecEnd | src/main/java/jpbetz/cli/CommandSet.java:192-199 | after exec: completed exactly when it returned; exit status 1 exactly for a CommandError (with its message after "error: ") or another Exception; an Error escapes |
| Commands.BindEnd | src/main/java/jpbetz/cli/CommandSet.java:186-202 | a ParseException from parse() is shown as "error: " and its message; the IllegalStateException escapes with no exit |
| Commands.StagesInOrder | src/main/java/jpbetz/cli/CommandSet.java:181-204 | the stages reached are always a prefix of option parse, positional parse, argument injection, option injection, exec, and a run that stops early has not completed |
| Commands.ExecutionNeedsParsedInput | src/main/java/jpbetz/cli/CommandSet.java:185-192 | exec runs exactly when both parses succeed and argument and option injection both complete |
| Commands.ParseFailureLeavesFields | src/main/java/jpbetz/cli/CommandSet.java:185-203 | a failed option or positional parse leaves every field unchanged, skips exec and ends with the usage error or the escaping exception |
| Commands.TooFewWordsReported | src/main/java/jpbetz/cli/CommandSet.java:186-202 | too few positional words end the run with "error: Not enough arguments ..." and exit status 1 |
| Commands.IllegalDefinitionEscapes | src/main/java/jpbetz/cli/CommandSet.java:187-200 | an argument after the first optional-or-vararg one makes the IllegalStateException escape, with no forced exit |
| Commands.BuiltCommandStackTraceCauses | src/main/java/jpbetz/cli/CommandSet.java:188-198 | for a built command a stack trace comes from exec itself or from a refused flag given on the command line, never from argument injection |
| Commands.RefusedFlagStopsRun | src/main/java/jpbetz/cli/CommandSet.java:188-199 | a refused flag given on the command line ends a run that got past argument injection with a stack trace and exit status 1, and exec is not called |
| Commands.ExecErrorEscapes | src/main/java/jpbetz/cli/CommandSet.java:188-199 | the run ends with an escaping Error exactly when exec was reached and threw one, and then no exit is forced |
| Commands.CompletedRunsEverything | src/main/java/jpbetz/cli/CommandSet.java:188-192 | a completed run reached every stage, exec returned normally, option injection completed, and the fields hold the arguments then the options injected |
| Commands.RunSubCommand | src/main/java/jpbetz/cli/CommandSet.java:181-204 | running a command yields the stages, ending and fields the run rules describe (a refused flag included), and leaves those fields in the instance |
| Commands.RunParsed | src/main/java/jpbetz/cli/CommandSet.java:186-199 | the inner try block: positional parse, argument injection, option injection (which can throw on a refused flag) and exec, as the run rules describe once the options are parsed |
| Commands.CommandSet.constructor | src/main/java/jpbetz/cli/CommandSet.java:43-46 | a new command set has its name and no sub commands |
| Commands.CommandSet.AddSubCommand | src/main/java/jpbetz/cli/CommandSet.java:48-52 | null is ignored; otherwise the summary is put under its verbatim name, replacing any entry of that name |
| Commands.CommandSet.AddSubCommandClass | src/main/java/jpbetz/cli/CommandSet.java:54-56 | a rejected class changes nothing; an accepted one adds or replaces exactly its name with a summary holding a fresh instance at the class's defaults, the annotation's name and description, and the declared options and arguments |
| Commands.LastAccepted | src/main/java/jpbetz/cli/CommandSet.java:58-62 | the class a name ends up registered from is an accepted class of the sequence with that name |
| Commands.LastAcceptedStep | src/main/java/jpbetz/cli/CommandSet.java:58-62 | one more class changes the last accepted class of a name only when it is accepted under that name |
| Commands.RegistryStep | src/main/java/jpbetz/cli/CommandSet.java:48-62 | adding one class grows the key set by its name when accepted and keeps every other entry |
| Commands.CommandSet.AddOneClass | src/main/java/jpbetz/cli/CommandSet.java:59-61 | one turn of the loop keeps the registry described by the classes seen so far |
| Commands.CommandSet.AddSubCommands | src/main/java/jpbetz/cli/CommandSet.java:58-62 | the registered names grow by exactly the names of the accepted classes; each of them holds the summary of the last accepted class with that name; every other entry stays as it was |
| Commands.CommandSet.Invoke | src/main/java/jpbetz/cli/CommandSet.java:64-84 | invoke routes the words over the registered names and runs a command only when it selects one, on the remaining words; the registry does not change, and every instance other than the one run (all of them when nothing runs) keeps its fields |

## Findings

| source | as written | input that shows it | evidently intended | confidence | as-written member | corrected member |
|---|---|---|---|---|---|---|
| src/main/java/jpbetz/cli/CommandSet.java:225 | a flag's field is set with `Field.setBoolean`, which throws an IllegalArgumentException on a `java.lang.Boolean` field, although `extractOption` (line 275) makes such a field a flag | `@Opt(opt="v") Boolean verbose` run with `-v`: a stack trace and exit status 1, and `exec` is not called | the field is set to `Boolean.TRUE` | not executed; rests on the standard reflection rule that `setBoolean` does not box | Injection.BoxedFlagRefusedExample | Injection.IntendedFlagSet |

The run (`RunSpec`, `RunSubCommand`) follows the code as written. `IntendedInjectOptions` is the intended rule, and `AsWrittenAgreesWhenComplete` proves the two differ only where a refused flag is given.

## Left out

- SubCommandShell.java is not part of this model. It is an older copy of `invoke` built on `CommandLineArgs`, `CliCommand`, `CliOption` and `CliArgument`, which are not modelled.
- Printing is not modelled: the help layout, the `%-20.19s` formatting, the stderr lines and stack traces. Only the messages that decide behaviour are kept (`Message`, `NotFoundMessage`, `ErrorLine`).
- `System.exit(1)` is not performed. `ExitStatus` reports it as a result value.
- commons-cli is not modelled: option tokenizing, `Options`, `HelpFormatter`, `TypeHandler`. These are foreign calls, taken as the `OptionParser` and `Converter` parameters.
- How `Options` stores options is not modelled: it keys them by name, so a repeated option name replaces the earlier one, and `getOptions()` has its own order. The model keeps the declared options as a sequence in field order.
- Reflection is replaced by data: `newInstance`, `getDeclaredFields`, annotation lookup, `Field.set` and `Field.setBoolean`. `setBoolean` refusing a non-primitive field is modelled. A `Field.set` of a value of the wrong type (an IllegalArgumentException, say a File object for a String field) is not modelled; such writes always succeed in the model.
- Injection.ValidOptName: `Character.isJavaIdentifierPart` is modelled on ASCII only. Every character above U+007E counts as accepted, though Java refuses some of them. A one-character name may be a space, as in commons-cli 1.2; later releases refuse it.
- Commands.DeclaredOptionSlotsDistinct, Commands.BuiltOptionField: a `CommandClass` may list two fields with the same id. These lemmas take `DistinctFieldIds` as given, which reflection guarantees for a real class.
- The `allowedTypes` check in `extractOption` is not modelled: it only prints a warning.
- The option accessors of `CommandContext` are not modelled: `getOptionObject`, `getOptionValue(s)`, `hasOption`, `getArgList`, `getArgs`, `iterator`. They delegate to commons-cli. Option injection reads the option parser's result directly.
- Injection.InjectArguments, Injection.InjectOptions, Commands.RunSubCommand: `exec` is modelled as a function of the fields, the binding and the command line. Any change it makes to the instance's fields is not modelled, and the fields after a run are those after injection.
- Java object identity: two equal `Argument`s without a field are one value in the model, but two objects in Java. They are then one key in `byName`, in the element set behind `hasArg(Argument)`, for `indexOf` and in the binding map, where in Java they would be distinct. Arguments built from fields always differ by their `slot`.
- Text.ToLower: only ASCII letters are lowered. Java's locale-dependent, full-Unicode `toLowerCase` is not modelled.
- `Arg.java` declares no `type()` element, yet `extractArgument` reads one. The model gives `ArgAnnotation` a `typ` field.
- CommandSummary's `optionFields` map is not modelled as a separate map. Each `OptionDesc` carries the field it writes (`slot`).
