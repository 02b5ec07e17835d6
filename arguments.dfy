/**
 * Arguments: the ordered, append-only list of positional argument
 * descriptors a command declares, with its index by name and the seal that
 * the first optional-or-vararg argument sets.
 */
module ArgumentList {
  import opened Values
  import opened Descriptors

  /** The IllegalArgumentException thrown by addArgument. */
  datatype ConstructionError = IllegalOrdering

  const IllegalOrderingMessage :=
    "Illegal arguments defined.  " + "No additional arguments may be defined after first optional or vararg argument."

  /** How many optional-or-vararg arguments a list holds. */
  function TerminalCount(s: seq<Argument>): nat {
    if s == [] then 0
    else TerminalCount(s[..|s| - 1]) + (if IsTerminal(s[|s| - 1]) then 1 else 0)
  }

  predicate HasTerminal(s: seq<Argument>) {
    exists i :: 0 <= i < |s| && IsTerminal(s[i])
  }

  lemma {:induction false} TerminalCountZero(s: seq<Argument>)
    ensures TerminalCount(s) == 0 <==> !HasTerminal(s)
  {
    if s != [] {
      var p := s[..|s| - 1];
      TerminalCountZero(p);
      assert forall i :: 0 <= i < |p| ==> p[i] == s[i];
      if HasTerminal(s) && !IsTerminal(s[|s| - 1]) {
        var i :| 0 <= i < |s| && IsTerminal(s[i]);
        assert IsTerminal(p[i]);
      }
    }
  }

  /** Appending one argument adds one to the count exactly when it is optional or a vararg. */
  lemma TerminalCountAppend(s: seq<Argument>, a: Argument)
    ensures TerminalCount(s + [a]) == TerminalCount(s) + (if IsTerminal(a) then 1 else 0)
  {
    assert (s + [a])[..|s|] == s;
  }

  /**
   * The by-name index that the sequence of puts builds: each named argument is
   * put under its name, so a later argument with the same name replaces the lookup.
   */
  function NameIndex(s: seq<Argument>): map<string, Argument> {
    if s == [] then map[]
    else
      var a := s[|s| - 1];
      var m := NameIndex(s[..|s| - 1]);
      if a.name.Some? then m[a.name.value := a] else m
  }

  /** Position i holds the last argument of s named n. */
  ghost predicate LastNamed(s: seq<Argument>, n: string, i: int) {
    0 <= i < |s| && s[i].name == Some(n) && forall j :: i < j < |s| ==> s[j].name != Some(n)
  }

  /** The index knows exactly the names that occur, and maps each to its last occurrence. */
  lemma {:induction false} NameIndexLookup(s: seq<Argument>, n: string)
    ensures n in NameIndex(s) <==> exists i :: 0 <= i < |s| && s[i].name == Some(n)
    ensures n in NameIndex(s) ==> exists i :: LastNamed(s, n, i) && s[i] == NameIndex(s)[n]
  {
    if s != [] {
      var p := s[..|s| - 1];
      var a := s[|s| - 1];
      NameIndexLookup(p, n);
      assert forall i :: 0 <= i < |p| ==> p[i] == s[i];
      if a.name == Some(n) {
        assert LastNamed(s, n, |s| - 1);
      } else if n in NameIndex(p) {
        var i :| LastNamed(p, n, i) && p[i] == NameIndex(p)[n];
        assert LastNamed(s, n, i);
      }
    }
  }

  /** What appending one argument does to the index, the seal and the element set. */
  lemma AppendFacts(s: seq<Argument>, a: Argument)
    ensures NameIndex(s + [a]) == if a.name.Some? then NameIndex(s)[a.name.value := a] else NameIndex(s)
    ensures HasTerminal(s + [a]) <==> HasTerminal(s) || IsTerminal(a)
    ensures (set x | x in s + [a]) == (set x | x in s) + {a}
  {
    var t := s + [a];
    assert t[..|s|] == s;
    assert forall i :: 0 <= i < |s| ==> t[i] == s[i];
    if HasTerminal(t) && !IsTerminal(a) {
      var i :| 0 <= i < |t| && IsTerminal(t[i]);
      assert IsTerminal(s[i]);
    }
    if HasTerminal(s) {
      var i :| 0 <= i < |s| && IsTerminal(s[i]);
      assert IsTerminal(t[i]);
    }
    if IsTerminal(a) {
      assert IsTerminal(t[|s|]);
    }
  }

  /**
   * getUsageArgList: each argument's usage at its 1-based position, each followed
   * by one space, in list order.
   */
  function UsageList(s: seq<Argument>): (r: string)
    ensures s == [] <==> r == ""
    ensures s != [] ==> r[|r| - 1] == ' '
  {
    if s == [] then ""
    else UsageList(s[..|s| - 1]) + PrintUsage(s[|s| - 1], |s|) + " "
  }

  /** The usage line grows at its end: appending an argument appends its usage at the next position. */
  lemma UsageListAppend(s: seq<Argument>, a: Argument)
    ensures UsageList(s + [a]) == UsageList(s) + PrintUsage(a, |s| + 1) + " "
  {
    var t := s + [a];
    assert t[..|t| - 1] == s;
    assert t[|t| - 1] == a;
    assert UsageList(t) == UsageList(t[..|t| - 1]) + PrintUsage(t[|t| - 1], |t|) + " ";
  }

  /** The usage of a prefix one argument longer. */
  lemma UsageListStep(s: seq<Argument>, k: nat)
    requires k < |s|
    ensures UsageList(s[..k + 1]) == UsageList(s[..k]) + PrintUsage(s[k], k + 1) + " "
  {
    assert s[..k + 1] == s[..k] + [s[k]];
    UsageListAppend(s[..k], s[k]);
  }

  /** Position of the first occurrence of x in s, or -1 (List.indexOf). */
  function FirstIndex(s: seq<Argument>, x: Argument): (r: int)
    ensures -1 <= r < |s|
    ensures r == -1 <==> x !in s
    ensures r >= 0 ==> s[r] == x && forall j :: 0 <= j < r ==> s[j] != x
  {
    if s == [] then -1
    else if s[0] == x then 0
    else
      var k := FirstIndex(s[1..], x);
      if k < 0 then -1 else k + 1
  }

  class Arguments {
    var arguments: seq<Argument>
    var byName: map<string, Argument>
    var argumentSet: set<Argument>
    var sealed: bool

    /**
     * The set and the index are derived from the list, the seal is set exactly when
     * some optional-or-vararg argument is in the list, and there is at most one of those.
     * Required arguments may still follow it: the list does not forbid that.
     */
    ghost predicate Valid()
      reads this
    {
      && argumentSet == (set a | a in arguments)
      && byName == NameIndex(arguments)
      && sealed == HasTerminal(arguments)
      && TerminalCount(arguments) <= 1
    }

    constructor ()
      ensures Valid()
      ensures arguments == [] && byName == map[] && argumentSet == {} && !sealed
    {
      arguments := [];
      byName := map[];
      argumentSet := {};
      sealed := false;
    }

    /**
     * addArgument: an optional-or-vararg argument seals the list, or fails if it is
     * already sealed; a required single-valued argument is always appended.
     */
    method AddArgument(arg: Argument) returns (r: Result<Argument, ConstructionError>)
      requires Valid()
      modifies this
      ensures Valid()
      ensures old(sealed) ==> sealed
      ensures r.Failure? <==> IsTerminal(arg) && old(sealed)
      ensures r.Failure? ==> r.error == IllegalOrdering
      ensures r.Failure? ==>
        arguments == old(arguments) && byName == old(byName)
        && argumentSet == old(argumentSet) && sealed == old(sealed)
      ensures r.Success? ==> r.value == arg
      ensures r.Success? ==> arguments == old(arguments) + [arg]
      ensures r.Success? ==> argumentSet == old(argumentSet) + {arg}
      ensures r.Success? ==> sealed == (old(sealed) || IsTerminal(arg))
      ensures r.Success? ==>
        byName == if arg.name.Some? then old(byName)[arg.name.value := arg] else old(byName)
    {
      if IsTerminal(arg) {
        if sealed {
          return Failure(IllegalOrdering);
        }
        TerminalCountZero(arguments);
        sealed := true;
      }
      ghost var before := arguments;
      arguments := arguments + [arg];
      AppendFacts(before, arg);
      TerminalCountAppend(before, arg);
      argumentSet := argumentSet + {arg};
      if arg.name.Some? {
        byName := byName[arg.name.value := arg];
      }
      return Success(arg);
    }

    /** hasArg(Argument): membership in the argument set, i.e. in the list. */
    predicate HasArgument(arg: Argument)
      reads this
      requires Valid()
      ensures HasArgument(arg) <==> arg in arguments
    {
      arg in argumentSet
    }

    /** hasArg(String): some argument in the list carries that name. */
    predicate HasArgNamed(argName: string)
      reads this
      requires Valid()
      ensures HasArgNamed(argName) <==> exists i :: 0 <= i < |arguments| && arguments[i].name == Some(argName)
    {
      NameIndexLookup(arguments, argName);
      argName in byName
    }

    /** getArg(String): the last argument added under that name, or null. */
    function GetArg(argName: string): (r: Option<Argument>)
      reads this
      requires Valid()
      ensures r.Some? <==> HasArgNamed(argName)
      ensures r.Some? ==> exists i :: LastNamed(arguments, argName, i) && arguments[i] == r.value
    {
      NameIndexLookup(arguments, argName);
      if argName in byName then Some(byName[argName]) else None
    }

    /** indexOf(Argument): position of its first occurrence, or -1. */
    function IndexOf(arg: Argument): (r: int)
      reads this
      ensures -1 <= r < |arguments|
      ensures r == -1 <==> arg !in arguments
      ensures r >= 0 ==> arguments[r] == arg && forall j :: 0 <= j < r ==> arguments[j] != arg
    {
      FirstIndex(arguments, arg)
    }

    /** getUsageArgList: renders the positional part of the usage line. */
    method GetUsageArgList() returns (usage: string)
      ensures usage == UsageList(arguments)
    {
      var args := arguments;
      var builder := "";
      var i := 1;
      for k := 0 to |args|
        invariant i == k + 1
        invariant builder == UsageList(args[..k])
      {
        var piece := PrintUsage(args[k], i);
        UsageListStep(args, k);
        builder := builder + piece + " ";
        i := i + 1;
      }
      assert args[..|args|] == args;
      usage := builder;
    }
  }

  /** A list holding one required `<x>` and one optional vararg `<y>` renders as `<x> [<y>...] `. */
  lemma UsageExample()
    ensures UsageList([Argument(None, Some("x"), None, true, false), Argument(None, Some("y"), None, false, true)])
      == "<x> [<y>...] "
  {
  }
}
