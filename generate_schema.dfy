/** src/generate-schema.ts: its own copies of the decorator helpers and of the
    entity-name resolution, and the decision, inside `visit`, of when an entity name is
    computed. Each copy is proved to agree with the member of src/utils.ts or src/orm.ts
    it duplicates, and `visit` is proved to find, in traversal order, exactly the names
    orm's `getEntityName` finds. */
module GenerateSchema {
  import opened Wrappers
  import opened Syntax
  import opened Literals
  import Decorators
  import Orm
  import Traversal

  function GetDecorator(node: Decl): (r: Option<Decorator>)
    requires IsDecoratable(node)
    ensures r == Decorators.GetDecorator(node)
  {
    var modifiers := if node.modifiers.Some? then node.modifiers.value else [];
    Decorators.FirstDecorator(modifiers)
  }

  function GetDecoratorName(decorator: Decorator): (r: Option<string>)
    ensures r == Decorators.GetDecoratorName(decorator)
  {
    if decorator.expression.Call? && decorator.expression.callee.IdentifierExpr? then
      Some(decorator.expression.callee.text)
    else None
  }

  predicate IsEntityDecorator(decorator: Decorator)
    ensures IsEntityDecorator(decorator) <==> Orm.IsEntityDecorator(decorator)
    ensures IsEntityDecorator(decorator) <==>
      decorator.expression.Call? && decorator.expression.callee == IdentifierExpr("Entity")
  {
    GetDecoratorName(decorator) == Some("Entity")
  }

  function GetClassName(classNode: Decl): (r: Throws<string>)
    requires classNode.ClassDeclaration?
    ensures r == Decorators.GetClassName(classNode)
  {
    match classNode.className
    case None => Err(ClassHasNoName)
    case Some(name) => Ok(name)
  }

  function GetDecoratorArguments(decorator: Decorator): (r: seq<Expr>)
    ensures r == Decorators.GetDecoratorArguments(decorator)
  {
    match decorator.expression
    case Call(_, arguments) => arguments
    case _ => []
  }

  /** The local getEntityName(decorator, classNode). */
  function EntityName(decorator: Decorator, classNode: Decl): (r: Throws<string>)
    requires classNode.ClassDeclaration?
    ensures r == Orm.EntityNameFromDecorator(decorator, classNode)
  {
    var args := GetDecoratorArguments(decorator);
    if |args| == 0 then GetClassName(classNode)
    else if args[0].StringLiteral? then Ok(args[0].text)
    else if args[0].ObjectLiteral? then
      var properties :- ObjectValue(args[0]);
      if "name" in properties && properties["name"].Str? && |properties["name"].s| > 0 then
        Ok(properties["name"].s)
      else GetClassName(classNode)
    else GetClassName(classNode)
  }

  /** What `visit` computes at one node: an entity name for a class whose first decorator
      is `@Entity(...)`, nothing otherwise. */
  function VisitNode(node: Decl): Throws<seq<string>> {
    if !node.ClassDeclaration? then Ok([])
    else
      match GetDecorator(node)
      case None => Ok([])
      case Some(decorator) =>
        if IsEntityDecorator(decorator) then
          var entityName :- EntityName(decorator, node);
          Ok([entityName])
        else Ok([])
  }

  /** visit: the entity names computed at `n` and then at its children's subtrees, in
      order; a throw stops the walk. */
  function Visit(n: Node): Throws<seq<string>>
    decreases n, |n.children| + 1
  {
    var here :- VisitNode(n.data);
    var below :- VisitChildren(n, 0);
    Ok(here + below)
  }

  function VisitChildren(n: Node, i: nat): Throws<seq<string>>
    requires i <= |n.children|
    decreases n, |n.children| - i
  {
    if i == |n.children| then Ok([])
    else
      var first :- Visit(n.children[i]);
      var rest :- VisitChildren(n, i + 1);
      Ok(first + rest)
  }

  /** Collecting along two runs one after the other: the first throw wins. */
  function Then(a: Throws<seq<string>>, b: Throws<seq<string>>): Throws<seq<string>> {
    var x :- a;
    var y :- b;
    Ok(x + y)
  }

  /** orm's getEntityName at one node, as a list of at most one name. */
  function NamesAt(n: Node): Throws<seq<string>> {
    var name :- Orm.GetEntityName(n);
    Ok(if name.Some? then [name.value] else [])
  }

  /** orm's getEntityName run on each of `nodes` in turn, keeping the names found and
      stopping at the first throw: what the tests of src/orm.spec.ts do through
      `traverse`. */
  function EntityNamesAlong(nodes: seq<Node>): Throws<seq<string>> {
    if nodes == [] then Ok([])
    else Then(NamesAt(nodes[0]), EntityNamesAlong(nodes[1..]))
  }

  lemma ThenAssociative(a: Throws<seq<string>>, b: Throws<seq<string>>, c: Throws<seq<string>>)
    ensures Then(Then(a, b), c) == Then(a, Then(b, c))
  {
    if a.Ok? && b.Ok? && c.Ok? {
      assert (a.value + b.value) + c.value == a.value + (b.value + c.value);
    }
  }

  lemma ThenUnit(a: Throws<seq<string>>)
    ensures Then(a, Ok([])) == a
  {
    if a.Ok? {
      assert a.value + [] == a.value;
    }
  }

  lemma {:induction false} EntityNamesAlongConcat(a: seq<Node>, b: seq<Node>)
    ensures EntityNamesAlong(a + b) == Then(EntityNamesAlong(a), EntityNamesAlong(b))
  {
    if a == [] {
      assert a + b == b;
      assert Then(Ok([]), EntityNamesAlong(b)) == EntityNamesAlong(b) by {
        if EntityNamesAlong(b).Ok? {
          assert [] + EntityNamesAlong(b).value == EntityNamesAlong(b).value;
        }
      }
    } else {
      assert (a + b)[0] == a[0];
      assert (a + b)[1..] == a[1..] + b;
      EntityNamesAlongConcat(a[1..], b);
      ThenAssociative(NamesAt(a[0]), EntityNamesAlong(a[1..]), EntityNamesAlong(b));
    }
  }

  /** At a single node, visit and orm's getEntityName decide alike. */
  lemma VisitNodeAgreesWithOrm(n: Node)
    ensures VisitNode(n.data) == EntityNamesAlong([n])
  {
    assert [n][1..] == [];
    ThenUnit(NamesAt(n));
    if n.data.ClassDeclaration? && GetDecorator(n.data).Some? {
      var decorator := GetDecorator(n.data).value;
      if IsEntityDecorator(decorator) {
        assert EntityName(decorator, n.data) == Orm.EntityNameFromDecorator(decorator, n.data);
      }
    }
  }

  /** visit finds, in traversal order, exactly the entity names orm's getEntityName finds
      on the nodes traverse visits, and throws exactly when one of those calls throws. */
  lemma {:induction false} VisitIsTraverse(n: Node)
    ensures Visit(n) == EntityNamesAlong(Traversal.Traverse(n))
    decreases n, |n.children| + 1
  {
    VisitChildrenIsTraverse(n, 0);
    VisitNodeAgreesWithOrm(n);
    EntityNamesAlongConcat([n], Traversal.TraverseChildren(n, 0));
  }

  lemma {:induction false} VisitChildrenIsTraverse(n: Node, i: nat)
    requires i <= |n.children|
    ensures VisitChildren(n, i) == EntityNamesAlong(Traversal.TraverseChildren(n, i))
    decreases n, |n.children| - i
  {
    if i < |n.children| {
      VisitIsTraverse(n.children[i]);
      VisitChildrenIsTraverse(n, i + 1);
      EntityNamesAlongConcat(Traversal.Traverse(n.children[i]), Traversal.TraverseChildren(n, i + 1));
    }
  }

  /** The class of the fixture src/tests/files/main.ts:
      `@Entity("TEST", { orderBy: { prop: "ASC" } }) export class Test`, with two
      decorated properties and a method. */
  function MainEntity(): Decorator {
    Decorator(Call(IdentifierExpr("Entity"), [
      StringLiteral("TEST"),
      ObjectLiteral([PropertyAssignment(IdentifierKey("orderBy"),
        ObjectLiteral([PropertyAssignment(IdentifierKey("prop"), StringLiteral("ASC"))]))])]))
  }

  function MainClass(): Node {
    Node(ClassDeclaration(Some([DecoratorModifier(MainEntity()), KeywordModifier("export")]), Some("Test")), [
      Node(PropertyDeclaration(
        Some([DecoratorModifier(Decorator(Call(IdentifierExpr("Column"), [
                StringLiteral("varchar"),
                ObjectLiteral([PropertyAssignment(IdentifierKey("nullable"), FalseKeyword)])]))),
              KeywordModifier("public")]),
        Some(IdentifierKey("prop")), Some(KeywordType(StringKeyword))), []),
      Node(PropertyDeclaration(
        Some([DecoratorModifier(Decorator(Call(IdentifierExpr("Column"), [StringLiteral("array")]))),
              KeywordModifier("public")]),
        Some(IdentifierKey("num")), Some(ArrayType(KeywordType(NumberKeyword)))), []),
      Node(MethodDeclaration(Some([KeywordModifier("public")]), Some(IdentifierKey("f"))), [])])
  }

  /** The fixture file: an import (not a declaration this model distinguishes) and the class. */
  function MainFile(): Node {
    Node(SourceFile, [Node(OtherNode, []), MainClass()])
  }

  /** A leaf that is not a class contributes no name. */
  lemma LeafWithoutClass(n: Node)
    requires !n.data.ClassDeclaration? && n.children == []
    ensures Visit(n) == Ok([])
  {
    assert VisitNode(n.data) == Ok([]);
    assert VisitChildren(n, 0) == Ok([]);
    var none: seq<string> := [];
    assert none + none == none;
  }

  /** Generating the schema of the fixture names its one entity "TEST": the string first
      argument wins over the class name. */
  lemma MainFixture()
    ensures Visit(MainFile()) == Ok(["TEST"])
  {
    var c := MainClass();
    assert GetDecorator(c.data) == Some(MainEntity());
    assert IsEntityDecorator(MainEntity());
    assert EntityName(MainEntity(), c.data) == Ok("TEST");
    assert VisitNode(c.data) == Ok(["TEST"]);
    LeafWithoutClass(c.children[0]);
    LeafWithoutClass(c.children[1]);
    LeafWithoutClass(c.children[2]);
    assert VisitChildren(c, 3) == Ok([]);
    assert VisitChildren(c, 2) == Ok([]);
    assert VisitChildren(c, 1) == Ok([]);
    assert VisitChildren(c, 0) == Ok([]);
    assert ["TEST"] + [] == ["TEST"];
    assert Visit(c) == Ok(["TEST"]);
    var f := MainFile();
    LeafWithoutClass(f.children[0]);
    assert VisitChildren(f, 2) == Ok([]);
    assert VisitChildren(f, 1) == Ok(["TEST"]);
    assert [] + ["TEST"] == ["TEST"];
    assert VisitChildren(f, 0) == Ok(["TEST"]);
  }

  /* ---- The four cases of src/orm.spec.ts ---- */

  /** What the tests of src/orm.spec.ts observe: they run orm's getEntityName on every node
      `traverse` visits and keep the last truthy (non-empty) name; a throw fails the test. */
  function NameFoundByTest(nodes: seq<Node>): Throws<Option<string>> {
    if nodes == [] then Ok(None)
    else
      var here :- Orm.GetEntityName(nodes[0]);
      var later :- NameFoundByTest(nodes[1..]);
      Ok(if later.Some? then later
         else if here.Some? && here.value != "" then here
         else None)
  }

  /** The name the test finds is the last non-empty name collected along the same nodes. */
  lemma {:induction false} NameFoundByTestIsLastName(nodes: seq<Node>)
    ensures NameFoundByTest(nodes).Err? <==> EntityNamesAlong(nodes).Err?
    ensures NameFoundByTest(nodes).Ok? ==>
      (NameFoundByTest(nodes) == Ok(None) <==>
         forall i :: 0 <= i < |EntityNamesAlong(nodes).value| ==> EntityNamesAlong(nodes).value[i] == "")
    ensures NameFoundByTest(nodes).Ok? && NameFoundByTest(nodes).value.Some? ==>
      exists i :: (&& 0 <= i < |EntityNamesAlong(nodes).value|
                   && EntityNamesAlong(nodes).value[i] == NameFoundByTest(nodes).value.value
                   && EntityNamesAlong(nodes).value[i] != ""
                   && forall j :: i < j < |EntityNamesAlong(nodes).value| ==> EntityNamesAlong(nodes).value[j] == "")
  {
    if nodes != [] {
      NameFoundByTestIsLastName(nodes[1..]);
      var here := Orm.GetEntityName(nodes[0]);
      var rest := EntityNamesAlong(nodes[1..]);
      if here.Ok? && rest.Ok? {
        var first := if here.value.Some? then [here.value.value] else [];
        var all := first + rest.value;
        assert EntityNamesAlong(nodes) == Ok(all);
        if NameFoundByTest(nodes[1..]).value.Some? {
          var i :| (&& 0 <= i < |rest.value|
                    && rest.value[i] == NameFoundByTest(nodes[1..]).value.value
                    && rest.value[i] != ""
                    && forall j :: i < j < |rest.value| ==> rest.value[j] == "");
          assert all[|first| + i] == rest.value[i];
          assert forall j :: |first| + i < j < |all| ==> all[j] == rest.value[j - |first|];
        } else if here.value.Some? && here.value.value != "" {
          assert all[0] == here.value.value;
          assert forall j :: 0 < j < |all| ==> all[j] == rest.value[j - 1];
        } else {
          assert forall j :: |first| <= j < |all| ==> all[j] == rest.value[j - |first|];
        }
      }
    }
  }

  /** A source file holding one class declaration. */
  function FileWith(classNode: Decl): Node {
    Node(SourceFile, [Node(classNode, [])])
  }

  /** The test finds the name of the one class of a file exactly as getEntityName gives
      it, except that an empty name is not kept. */
  lemma FileWithOneClass(classNode: Decl)
    ensures NameFoundByTest(Traversal.Traverse(FileWith(classNode))) ==
      (var r := Orm.GetEntityName(Node(classNode, []));
       if r.Ok? && r.value.Some? && r.value.value == "" then Ok(None) else r)
  {
    var f := FileWith(classNode);
    var c := Node(classNode, []);
    assert Traversal.TraverseChildren(c, 0) == [];
    assert Traversal.Traverse(c) == [c];
    assert Traversal.TraverseChildren(f, 1) == [];
    assert Traversal.TraverseChildren(f, 0) == [c];
    assert Traversal.Traverse(f) == [f, c];
    assert [f, c][1..] == [c];
    assert [c][1..] == [];
    assert Orm.GetEntityName(f) == Ok(None);
    assert NameFoundByTest([]) == Ok(None);
    var r := Orm.GetEntityName(c);
    var expected := if r.Ok? && r.value.Some? && r.value.value == "" then Ok(None) else r;
    assert NameFoundByTest([c]) == expected;
    assert NameFoundByTest([f, c]) == NameFoundByTest([c]);
  }

  /** `export class Test {}`: no name is found. */
  lemma NoNameScenario()
    ensures NameFoundByTest(Traversal.Traverse(FileWith(
      ClassDeclaration(Some([KeywordModifier("export")]), Some("Test"))))) == Ok(None)
  {
    FileWithOneClass(ClassDeclaration(Some([KeywordModifier("export")]), Some("Test")));
  }

  /** `@Entity() export class Test {}`: the class name. */
  lemma ClassNameScenario()
    ensures NameFoundByTest(Traversal.Traverse(FileWith(ClassDeclaration(
      Some([DecoratorModifier(Decorator(Call(IdentifierExpr("Entity"), []))), KeywordModifier("export")]),
      Some("Test"))))) == Ok(Some("Test"))
  {
    FileWithOneClass(ClassDeclaration(
      Some([DecoratorModifier(Decorator(Call(IdentifierExpr("Entity"), []))), KeywordModifier("export")]),
      Some("Test")));
  }

  /** `@Entity('Test') export class Name {}`: the string argument, not the class name. */
  lemma StringArgumentScenario()
    ensures NameFoundByTest(Traversal.Traverse(FileWith(ClassDeclaration(
      Some([DecoratorModifier(Decorator(Call(IdentifierExpr("Entity"), [StringLiteral("Test")]))),
            KeywordModifier("export")]),
      Some("Name"))))) == Ok(Some("Test"))
  {
    FileWithOneClass(ClassDeclaration(
      Some([DecoratorModifier(Decorator(Call(IdentifierExpr("Entity"), [StringLiteral("Test")]))),
            KeywordModifier("export")]),
      Some("Name")));
  }

  /** `@Entity({ name: "Test" }) export class Name {}`: the `name` option. */
  lemma OptionsScenario()
    ensures NameFoundByTest(Traversal.Traverse(FileWith(ClassDeclaration(
      Some([DecoratorModifier(Decorator(Call(IdentifierExpr("Entity"),
              [ObjectLiteral([PropertyAssignment(IdentifierKey("name"), StringLiteral("Test"))])]))),
            KeywordModifier("export")]),
      Some("Name"))))) == Ok(Some("Test"))
  {
    var options := ObjectLiteral([PropertyAssignment(IdentifierKey("name"), StringLiteral("Test"))]);
    assert InitializerValue(StringLiteral("Test")) == Ok(Some(Str("Test")));
    assert ObjectFold(options, 1) == Ok(map["name" := Str("Test")]);
    assert ObjectValue(options) == Ok(map["name" := Str("Test")]);
    FileWithOneClass(ClassDeclaration(
      Some([DecoratorModifier(Decorator(Call(IdentifierExpr("Entity"), [options]))), KeywordModifier("export")]),
      Some("Name")));
  }
}
