/** Entity-name resolution of src/orm.ts. */
module Orm {
  import opened Wrappers
  import opened Syntax
  import opened Literals
  import opened Decorators

  /** isEntityDecorator: the decorator is a call named exactly `Entity`. */
  predicate IsEntityDecorator(d: Decorator)
    ensures IsEntityDecorator(d) <==> d.expression.Call? && d.expression.callee == IdentifierExpr("Entity")
  {
    GetDecoratorName(d) == Some("Entity")
  }

  /** A usable `name` option: a non-empty string stored under key `name`. */
  predicate HasNameOption(fields: map<string, Value>) {
    "name" in fields && fields["name"].Str? && |fields["name"].s| > 0
  }

  /** `s` is given by the decorator's first argument: it is the string literal `s`, or an
      options object that evaluates and holds the non-empty string `s` under `name`. */
  predicate NamedByFirstArgument(d: Decorator, s: string) {
    var args := GetDecoratorArguments(d);
    && |args| > 0
    && (|| args[0] == StringLiteral(s)
        || (&& args[0].ObjectLiteral?
            && ObjectValue(args[0]).Ok?
            && HasNameOption(ObjectValue(args[0]).value)
            && ObjectValue(args[0]).value["name"] == Str(s)))
  }

  /** getEntityNameFromDecorator. The name is the class identifier or comes from the first
      argument; resolution throws only for an anonymous class or a malformed options
      object. */
  function EntityNameFromDecorator(d: Decorator, classNode: Decl): (r: Throws<string>)
    requires classNode.ClassDeclaration?
    ensures r.Ok? ==> Some(r.value) == classNode.className || NamedByFirstArgument(d, r.value)
    ensures r.Err? ==>
      || (r.error == ClassHasNoName && classNode.className.None?)
      || (&& r.error == MalformedKey
          && |GetDecoratorArguments(d)| > 0
          && GetDecoratorArguments(d)[0].ObjectLiteral?
          && ObjectValue(GetDecoratorArguments(d)[0]).Err?)
  {
    var args := GetDecoratorArguments(d);
    if |args| == 0 then GetClassName(classNode)
    else
      var arg := args[0];
      match arg
      case StringLiteral(text) => Ok(text)
      case ObjectLiteral(_) =>
        ObjectFoldOnlyMalformedKey(arg, |arg.properties|);
        var properties :- ObjectValue(arg);
        if HasNameOption(properties) then Ok(properties["name"].s) else GetClassName(classNode)
      case _ => GetClassName(classNode)
  }

  /** getEntityName: only a class declaration whose first decorator is `@Entity(...)`
      gets a name (or throws); every other node gets none. */
  function GetEntityName(n: Node): (r: Throws<Option<string>>)
    ensures r != Ok(None) <==>
      && n.data.ClassDeclaration?
      && GetDecorator(n.data).Some?
      && IsEntityDecorator(GetDecorator(n.data).value)
    ensures r != Ok(None) ==>
      var resolved := EntityNameFromDecorator(GetDecorator(n.data).value, n.data);
      && (r.Ok? ==> resolved == Ok(r.value.value))
      && (r.Err? ==> resolved == Err(r.error))
  {
    if !n.data.ClassDeclaration? then Ok(None)
    else
      match GetDecorator(n.data)
      case None => Ok(None)
      case Some(decorator) =>
        if !IsEntityDecorator(decorator) then Ok(None)
        else
          var name :- EntityNameFromDecorator(decorator, n.data);
          Ok(Some(name))
  }

  /* ---- The precedence of the name sources ---- */

  /** With no arguments the name is the class identifier; an anonymous class throws. */
  lemma NoArgumentsGiveClassName(d: Decorator, classNode: Decl)
    requires classNode.ClassDeclaration? && GetDecoratorArguments(d) == []
    ensures EntityNameFromDecorator(d, classNode) == GetClassName(classNode)
    ensures classNode.className.None? ==> EntityNameFromDecorator(d, classNode) == Err(ClassHasNoName)
  {
  }

  /** A string-literal first argument is the name, verbatim, even for an anonymous class. */
  lemma StringArgumentIsName(d: Decorator, classNode: Decl, text: string)
    requires classNode.ClassDeclaration?
    requires |GetDecoratorArguments(d)| > 0 && GetDecoratorArguments(d)[0] == StringLiteral(text)
    ensures EntityNameFromDecorator(d, classNode) == Ok(text)
  {
  }

  /** A usable `name` in an options object wins over the class identifier. */
  lemma NameOptionWins(d: Decorator, classNode: Decl)
    requires classNode.ClassDeclaration?
    requires |GetDecoratorArguments(d)| > 0
    requires GetDecoratorArguments(d)[0].ObjectLiteral?
    requires ObjectValue(GetDecoratorArguments(d)[0]).Ok?
    requires HasNameOption(ObjectValue(GetDecoratorArguments(d)[0]).value)
    ensures EntityNameFromDecorator(d, classNode) ==
      Ok(ObjectValue(GetDecoratorArguments(d)[0]).value["name"].s)
  {
  }

  /** A member of the options object that throws (a computed or numeric key, at any
      depth) makes the resolution throw `MalformedKey`, whatever the class is called. */
  lemma MalformedOptionsThrow(d: Decorator, classNode: Decl, i: nat)
    requires classNode.ClassDeclaration?
    requires |GetDecoratorArguments(d)| > 0
    requires GetDecoratorArguments(d)[0].ObjectLiteral?
    requires i < |GetDecoratorArguments(d)[0].properties|
    requires MemberThrows(GetDecoratorArguments(d)[0].properties[i])
    ensures EntityNameFromDecorator(d, classNode) == Err(MalformedKey)
  {
    var arg := GetDecoratorArguments(d)[0];
    ObjectThrowsIff(arg, |arg.properties|);
    ObjectFoldOnlyMalformedKey(arg, |arg.properties|);
  }

  /** Every other first argument, and an options object without a usable `name`, falls
      back to the class identifier. */
  lemma OtherArgumentsFallBack(d: Decorator, classNode: Decl)
    requires classNode.ClassDeclaration?
    requires |GetDecoratorArguments(d)| > 0
    requires !GetDecoratorArguments(d)[0].StringLiteral?
    requires GetDecoratorArguments(d)[0].ObjectLiteral? ==>
      ObjectValue(GetDecoratorArguments(d)[0]).Ok? &&
      !HasNameOption(ObjectValue(GetDecoratorArguments(d)[0]).value)
    ensures EntityNameFromDecorator(d, classNode) == GetClassName(classNode)
  {
  }

  /** Arguments after the first are never consulted. */
  lemma LaterArgumentsIgnored(callee: Expr, first: Expr, rest: seq<Expr>, classNode: Decl)
    requires classNode.ClassDeclaration?
    ensures EntityNameFromDecorator(Decorator(Call(callee, [first] + rest)), classNode) ==
            EntityNameFromDecorator(Decorator(Call(callee, [first])), classNode)
  {
  }

  /** Only the first decorator counts: if it is not `@Entity(...)`, the class is not an
      entity, whatever decorators follow it. */
  lemma OnlyFirstDecoratorCounts(n: Node, i: nat)
    requires n.data.ClassDeclaration? && n.data.modifiers.Some?
    requires i < |n.data.modifiers.value|
    requires n.data.modifiers.value[i].DecoratorModifier?
    requires !IsEntityDecorator(n.data.modifiers.value[i].decorator)
    requires forall j :: 0 <= j < i ==> !n.data.modifiers.value[j].DecoratorModifier?
    ensures GetEntityName(n) == Ok(None)
  {
    var ms := n.data.modifiers.value;
    var first := FirstDecorator(ms);
    assert first.Some?;
    var k :| 0 <= k < |ms| && ms[k] == DecoratorModifier(first.value) &&
      forall j :: 0 <= j < k ==> !ms[j].DecoratorModifier?;
    assert k == i;
  }
}
