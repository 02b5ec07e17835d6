/**
 * ArgumentBuilder: a mutable builder whose setters each change one field and
 * return the builder itself, and whose create() turns the current settings
 * into an Argument bound to the builder's field.
 */
module Builder {
  import opened Values
  import opened Descriptors

  class ArgumentBuilder {
    const field: FieldId
    var argName: Option<string>
    var typ: Option<TypeTag>
    var isRequired: bool
    var isVararg: bool

    /** `new ArgumentBuilder(field)` / `newBuilder(field)`: required, not vararg, no name, no type. */
    constructor (field: FieldId)
      ensures this.field == field
      ensures argName.None? && typ.None? && isRequired && !isVararg
    {
      this.field := field;
      argName := None;
      typ := None;
      isRequired := true;
      isVararg := false;
    }

    method WithArgName(argName: Option<string>) returns (b: ArgumentBuilder)
      modifies this
      ensures b == this
      ensures this.argName == argName
      ensures typ == old(typ) && isRequired == old(isRequired) && isVararg == old(isVararg)
    {
      this.argName := argName;
      b := this;
    }

    method WithType(typ: Option<TypeTag>) returns (b: ArgumentBuilder)
      modifies this
      ensures b == this
      ensures this.typ == typ
      ensures argName == old(argName) && isRequired == old(isRequired) && isVararg == old(isVararg)
    {
      this.typ := typ;
      b := this;
    }

    method SetRequired(isRequired: bool) returns (b: ArgumentBuilder)
      modifies this
      ensures b == this
      ensures this.isRequired == isRequired
      ensures argName == old(argName) && typ == old(typ) && isVararg == old(isVararg)
    {
      this.isRequired := isRequired;
      b := this;
    }

    method SetVararg(isVararg: bool) returns (b: ArgumentBuilder)
      modifies this
      ensures b == this
      ensures this.isVararg == isVararg
      ensures argName == old(argName) && typ == old(typ) && isRequired == old(isRequired)
    {
      this.isVararg := isVararg;
      b := this;
    }

    /** create(): every setting passes through unchanged, and the argument targets the builder's field. */
    function Create(): (a: Argument)
      reads this
      ensures a.slot == Some(field) && a.name == argName && a.typ == typ
      ensures a.required == isRequired && a.vararg == isVararg
    {
      Argument(Some(field), argName, typ, isRequired, isVararg)
    }
  }

  /** A builder used without any setter creates a required, single-valued, unnamed, untyped argument. */
  method DefaultArgument(field: FieldId) returns (a: Argument)
    ensures a.slot == Some(field)
    ensures a.required && !a.vararg && a.name.None? && a.typ.None?
  {
    var b := new ArgumentBuilder(field);
    a := b.Create();
  }

  /** Each setter called twice: the second call wins. */
  method LastSetterWins(
    field: FieldId, firstName: Option<string>, secondName: Option<string>,
    firstType: Option<TypeTag>, secondType: Option<TypeTag>,
    firstRequired: bool, secondRequired: bool, firstVararg: bool, secondVararg: bool)
    returns (a: Argument)
    ensures a.name == secondName && a.typ == secondType
    ensures a.required == secondRequired && a.vararg == secondVararg
    ensures a.slot == Some(field)
  {
    var b := new ArgumentBuilder(field);
    var b1 := b.WithArgName(firstName);
    var b2 := b1.WithType(firstType);
    var b3 := b2.SetRequired(firstRequired);
    var b4 := b3.SetVararg(firstVararg);
    var b5 := b4.WithArgName(secondName);
    var b6 := b5.WithType(secondType);
    var b7 := b6.SetRequired(secondRequired);
    var b8 := b7.SetVararg(secondVararg);
    a := b8.Create();
  }
}
