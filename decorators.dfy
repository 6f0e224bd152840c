/** Decorator inspection and name lookup of src/utils.ts. */
module Decorators {
  import opened Wrappers
  import opened Syntax

  /** The first decorator among `modifiers`, as `modifiers.find(isDecorator)` gives it. */
  function FirstDecorator(modifiers: seq<Modifier>): (r: Option<Decorator>)
    ensures r.None? <==> forall i :: 0 <= i < |modifiers| ==> !modifiers[i].DecoratorModifier?
    ensures r.Some? ==> exists i :: (0 <= i < |modifiers| && modifiers[i] == DecoratorModifier(r.value) &&
                                     forall j :: 0 <= j < i ==> !modifiers[j].DecoratorModifier?)
  {
    if |modifiers| == 0 then None
    else if modifiers[0].DecoratorModifier? then Some(modifiers[0].decorator)
    else FirstDecorator(modifiers[1..])
  }

  /** getDecorator: the first decorator of a class, property or method declaration; a
      declaration without modifiers has none. */
  function GetDecorator(d: Decl): (r: Option<Decorator>)
    requires IsDecoratable(d)
    ensures d.modifiers.None? ==> r.None?
    ensures d.modifiers.Some? ==> r == FirstDecorator(d.modifiers.value)
  {
    FirstDecorator(d.modifiers.GetOr([]))
  }

  /** getDecoratorName: the callee's text, for a decorator `@Ident(...)` only. */
  function GetDecoratorName(d: Decorator): Option<string> {
    match d.expression
    case Call(IdentifierExpr(text), _) => Some(text)
    case _ => None
  }

  /** getDecoratorArguments: the call's arguments, or none for a decorator that is not a call. */
  function GetDecoratorArguments(d: Decorator): (r: seq<Expr>)
    ensures !d.expression.Call? ==> r == []
  {
    if d.expression.Call? then d.expression.arguments else []
  }

  /** A decorator has a name exactly when it is the call `@name(args)` of an identifier,
      and then name and arguments give back the whole decorator expression. */
  lemma NamedDecoratorShape(d: Decorator)
    ensures GetDecoratorName(d).Some? <==>
      d.expression.Call? && d.expression.callee.IdentifierExpr?
    ensures GetDecoratorName(d).Some? ==>
      d.expression == Call(IdentifierExpr(GetDecoratorName(d).value), GetDecoratorArguments(d))
  {
  }

  /** getClassName: the class identifier's text; an anonymous class throws. */
  function GetClassName(d: Decl): (r: Throws<string>)
    requires d.ClassDeclaration?
    ensures r.Err? <==> d.className.None?
    ensures r.Err? ==> r.error == ClassHasNoName
    ensures r.Ok? ==> Some(r.value) == d.className
  {
    if d.className.None? then Err(ClassHasNoName) else Ok(d.className.value)
  }

  /** getPropertyName: the `text` of the property's name, read as if it were an identifier
      (so a computed name gives `undefined`); a property without a name throws. */
  function GetPropertyName(d: Decl): (r: Throws<Option<string>>)
    requires d.PropertyDeclaration?
    ensures r.Err? <==> d.propertyName.None?
    ensures r.Err? ==> r.error == PropertyHasNoName
    ensures r.Ok? ==> (r.value.None? <==> d.propertyName.value.ComputedKey?)
    ensures r.Ok? && r.value.Some? ==> r.value.value == d.propertyName.value.text
  {
    if d.propertyName.None? then Err(PropertyHasNoName) else Ok(KeyText(d.propertyName.value))
  }
}
