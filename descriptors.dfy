/**
 * Argument: immutable description of one positional argument (name, type,
 * required?, vararg?) and its rendering in a usage line. The field that an
 * argument is injected into is carried as an extra slot; the constructors
 * that take no field leave it empty.
 */
module Descriptors {
  import opened Values
  import Text

  datatype Argument = Argument(
    slot: Option<FieldId>,
    name: Option<string>,
    typ: Option<TypeTag>,
    required: bool,
    vararg: bool)

  /** `new Argument(type)`: an unnamed, required, single-valued argument of the given type. */
  function FromType(t: Option<TypeTag>): (a: Argument)
    ensures a.name.None? && a.typ == t && a.slot.None?
    ensures a.required && !a.vararg
  {
    Argument(None, None, t, true, false)
  }

  /** `new Argument(argName)`: a required, single-valued String argument with that name. */
  function FromName(argName: Option<string>): (a: Argument)
    ensures a.name == argName && a.typ == Some(StringType) && a.slot.None?
    ensures a.required && !a.vararg
  {
    Argument(None, argName, Some(StringType), true, false)
  }

  /** The optional-or-vararg arguments: the ones that seal an argument list and end the positional walk. */
  predicate IsTerminal(a: Argument) {
    a.vararg || !a.required
  }

  predicate HasArgName(a: Argument) {
    a.name.Some?
  }

  predicate HasType(a: Argument) {
    a.typ.Some?
  }

  /** What hasArgName and hasType report for the two field-less constructors. */
  lemma ConstructorQueries(t: Option<TypeTag>, n: Option<string>)
    ensures !HasArgName(FromType(t)) && (HasType(FromType(t)) <==> t.Some?)
    ensures (HasArgName(FromName(n)) <==> n.Some?) && HasType(FromName(n))
  {
  }

  /** `printTitle(position)`: `<name>`, else the type's toString(), else `ARG` and the position. */
  function PrintTitle(a: Argument, position: int): (t: string)
    ensures HasArgName(a) ==> |t| == |a.name.value| + 2
    ensures !HasArgName(a) && !HasType(a) ==> |t| > 3 && t[..3] == "ARG"
  {
    if HasArgName(a) then "<" + a.name.value + ">"
    else if HasType(a) then a.typ.value.repr
    else "ARG" + Text.IntString(position)
  }

  /** `printUsage(position)`: how the argument appears in a usage line. */
  function PrintUsage(a: Argument, position: int): (u: string)
    ensures u == PrintTitle(a, position) <==> a.required && !a.vararg
    ensures !a.required ==> |u| >= 2 && u[0] == '[' && u[|u| - 1] == ']'
    ensures a.vararg ==> |u| >= 5 && u[|u| - 4..] == "...]"
  {
    var t := PrintTitle(a, position);
    if a.vararg then
      if a.required then t + " [" + t + "...]" else "[" + t + "...]"
    else if a.required then t
    else "[" + t + "]"
  }

  /**
   * Reads the (required, vararg) shape back out of a usage string, given the title.
   * The four renderings have pairwise different lengths, so the shape is determined.
   */
  function UsageShape(usage: string, title: string): Option<(bool, bool)> {
    if usage == title then Some((true, false))
    else if usage == "[" + title + "]" then Some((false, false))
    else if usage == "[" + title + "...]" then Some((false, true))
    else if usage == title + " [" + title + "...]" then Some((true, true))
    else None
  }

  /** The usage rendering keeps the argument's shape: it can be decoded again. */
  lemma UsageShapeRoundTrip(a: Argument, position: int)
    ensures UsageShape(PrintUsage(a, position), PrintTitle(a, position)) == Some((a.required, a.vararg))
  {
    var t := PrintTitle(a, position);
    var u := PrintUsage(a, position);
    assert |"[" + t + "]"| == |t| + 2;
    assert |"[" + t + "...]"| == |t| + 5;
    assert |t + " [" + t + "...]"| == 2 * |t| + 6;
  }

  /** A required single-valued argument shows up as its bare title; an optional one in brackets. */
  lemma UsageOfSingleValued(a: Argument, position: int)
    requires !a.vararg
    ensures a.required ==> PrintUsage(a, position) == PrintTitle(a, position)
    ensures !a.required ==> PrintUsage(a, position) == "[" + PrintTitle(a, position) + "]"
  {
  }

  /** A required vararg repeats its title: `t [t...]`; an optional one shows only `[t...]`. */
  lemma UsageOfVararg(a: Argument, position: int)
    requires a.vararg
    ensures a.required ==> PrintUsage(a, position) == PrintTitle(a, position) + " [" + PrintTitle(a, position) + "...]"
    ensures !a.required ==> PrintUsage(a, position) == "[" + PrintTitle(a, position) + "...]"
  {
  }

  /** A named argument's title is its name in angle brackets, and the name can be read back. */
  lemma TitleOfNamed(a: Argument, position: int)
    requires HasArgName(a)
    ensures var t := PrintTitle(a, position);
      |t| >= 2 && t[0] == '<' && t[|t| - 1] == '>' && t[1..|t| - 1] == a.name.value
  {
  }

  /** An unnamed, typed argument's title is the type's own rendering and ignores the position. */
  lemma TitleOfTyped(a: Argument, p: int, q: int)
    requires !HasArgName(a) && HasType(a)
    ensures PrintTitle(a, p) == PrintTitle(a, q) == a.typ.value.repr
  {
  }

  /** An unnamed, untyped argument's title is `ARG` followed by its position, which can be read back. */
  lemma TitleOfAnonymous(a: Argument, position: nat)
    requires !HasArgName(a) && !HasType(a)
    ensures var t := PrintTitle(a, position);
      |t| > 3 && t[..3] == "ARG"
      && (forall i :: 3 <= i < |t| ==> Text.IsDigit(t[i]))
      && Text.ParseDecimal(t[3..]) == position
  {
    var t := PrintTitle(a, position);
    assert t[3..] == Text.Decimal(position);
    Text.DecimalRoundTrip(position);
  }
}
