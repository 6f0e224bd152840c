# ts-parser decorator reader, modelled in Dafny

ts-parser reads TypeScript source and looks at the decorators on classes. From an
`@Entity(...)` decorator it works out the name under which the class is stored as a
database entity. This project models the part of the program that works on the syntax
tree once the TypeScript parser has built it, which is the following:

- **The literal evaluator** (`Literals`). It turns an object-literal or array-literal
  expression into a plain value.
  - An object is a record from keys to values, an array is a list, and nesting is
    allowed.
  - A key that is not an identifier or a string literal throws.
  - Members, initialisers and elements of any other shape are skipped without error.
  - Both evaluators are `for` loops that build the record or list in place. They are
    written as methods whose `ensures` ties the result to a recursive specification
    (`ObjectFold`, `ArrayFold`). The lemmas are stated about that specification.
- **Decorator inspection** (`Decorators`):
  - the first decorator among a declaration's modifiers;
  - its name, which exists only for `@Ident(...)`;
  - its arguments, which are empty when the decorator is not a call;
  - class and property names, where a missing name throws.
- **Entity-name resolution** (`Orm`): `isEntityDecorator`, `getEntityNameFromDecorator`
  and `getEntityName`. The name sources are tried in this order:
  1. no arguments → the class identifier;
  2. a string-literal first argument → that string;
  3. an options object with a non-empty string `name` → that name;
  4. anything else → the class identifier.
- **The local copies in src/generate-schema.ts and its `visit`** (`GenerateSchema`):
  - Each copy is proved equal to the member it duplicates.
  - `visit` is modelled by the list of entity names it computes. It is proved to give,
    in traversal order, exactly the names that `getEntityName` gives over `traverse`.
- **The structural comparison of type nodes and of interfaces** (`TypeCompare`). There
  is a specification predicate, and the index loops with early returns are methods
  proved against it. The comparison is symmetric and transitive but not reflexive.
- **Pre-order traversal** (`Traversal`). Every position of the tree is visited exactly
  once, and a node is visited before its descendants.
- **`snakeCase`** (`Naming`) on ASCII text: two regular-expression rewrite passes
  followed by lower-casing.

Supporting modules:

- `Syntax` holds the syntax-tree datatypes.
- `Wrappers` holds `Option` and `Result`.

A thrown `Error` is modelled as the `Err` case of `Result`. The three messages of the
source are the constructors of `Syntax.Error`:

| message in the source | constructor |
|---|---|
| "Property name is not an Identifier or StringLiteral" | `MalformedKey` |
| "Class has no name" | `ClassHasNoName` |
| "Property has no name" | `PropertyHasNoName` |

Three behaviours of the code worth knowing:

- Only the first decorator is read, whatever its shape. A bare `@Foo` placed before
  `@Entity()` therefore makes the class a non-entity (`Orm.OnlyFirstDecoratorCounts`).
- The class-name fallback is the class identifier, verbatim.
- The first argument is classified by its syntax (a string literal, an object literal),
  not by its evaluated value.

## Model

| member | source | states |
|---|---|---|
| `Literals.IsValidKey` | src/utils.ts:30 | Definition: an identifier or string-literal key; other keys throw, as `ObjectThrowsIff` proves. |
| `Literals.InitializerValue` | src/utils.ts:38-63 | Definition of one property initialiser: string, numeric, `true`, `false` and `null` map to their values, objects and arrays recurse, anything else is skipped; its properties are proved in `ContextsAgree`, `OnlyMalformedKey` and the scenario lemmas. |
| `Literals.ElementValue` | src/utils.ts:75-102 | Definition of one array element, the same cases plus `undefined`; its properties are proved in `ContextsAgree` and `OnlyMalformedKey`. |
| `Literals.ObjectFold` | src/utils.ts:23-64 | Definition: the record after the first `n` members; its properties are proved in `ObjectThrowsIff`, `ObjectKeys` and `ObjectLastAssignmentWins`. |
| `Literals.ArrayFold` | src/utils.ts:74-103 | Definition: the list after the first `n` elements; its properties are proved in `ArrayThrowsIff` and `ArrayPositions`. |
| `Literals.ObjectValue` | src/utils.ts:18-67 | Definition: the record of the whole object; `TransformObject` is proved to compute it and `ObjectKeys` characterises it. |
| `Literals.ArrayValue` | src/utils.ts:69-106 | Definition: the list of the whole array; `TransformArray` is proved to compute it and `ArrayLength` characterises it. |
| `Literals.TransformObject` | src/utils.ts:18-67 | The loop builds exactly the record (or the `MalformedKey` throw) that the specification `ObjectValue` gives. |
| `Literals.TransformArray` | src/utils.ts:69-106 | The loop builds exactly the list (or the throw) that the specification `ArrayValue` gives. |
| `Literals.ObjectFailureSticks` | src/utils.ts:30-34 | Once a member has thrown, evaluating any longer prefix of the object throws the same error: the throw aborts the loop. |
| `Literals.ArrayFailureSticks` | src/utils.ts:74-103 | Once an element has thrown, evaluating any longer prefix of the array throws the same error. |
| `Literals.ContextsAgree` | src/utils.ts:38-102 | `undefined` is a value only as an array element; an object initialiser `undefined` is skipped. On every other shape, element and initialiser evaluation agree. |
| `Literals.OnlyMalformedKey` | src/utils.ts:30-34 | `MalformedKey` is the only error evaluation can raise, at any depth of nesting. |
| `Literals.ObjectFoldOnlyMalformedKey` | src/utils.ts:23-64 | Evaluating any prefix of an object raises no error other than `MalformedKey`. |
| `Literals.ArrayFoldOnlyMalformedKey` | src/utils.ts:74-103 | Evaluating any prefix of an array raises no error other than `MalformedKey`. |
| `Literals.ObjectThrowsIff` | src/utils.ts:24-34 | An object throws if and only if some property assignment has a key that is not an identifier or string literal, or has an initialiser that throws. Non-assignments never throw. |
| `Literals.ObjectKeys` | src/utils.ts:24-63 | The record's keys are exactly the keys of the well-keyed assignments with a recognised initialiser. Skipped members and skipped initialisers add no key. |
| `Literals.ObjectLastAssignmentWins` | src/utils.ts:36-53 | Under each key the record holds the value of the last assignment that stored one. A later assignment overwrites an earlier one. |
| `Literals.ArrayThrowsIff` | src/utils.ts:74-103 | An array throws if and only if one of its elements throws. |
| `Literals.ArrayPositions` | src/utils.ts:74-105 | Order is kept and unrecognised elements are dropped. The list has one value per recognised element. Element `i`'s value sits at the index equal to the number of recognised elements before it. |
| `Literals.RecognizedBeforeFull` | src/utils.ts:100-102 | No element is dropped if and only if every element is recognised. |
| `Literals.ArrayLength` | src/utils.ts:72-105 | The list is never longer than the literal. It is exactly as long if and only if every element is recognised, and then it is the elements' values in order. |
| `Literals.ScalarRecordScenarios` | src/utils.spec.ts:7-69 | `{name: "John Doe"}`, `{age: 42}` and `{isNull: null}` evaluate to the expected records. |
| `Literals.BooleanRecordScenario` | src/utils.spec.ts:37-54 | `{isTrue: true, isFalse: false}` evaluates to the expected record. |
| `Literals.NestedRecordScenarios` | src/utils.spec.ts:71-115 | A nested record and a record holding a five-element array evaluate recursively. |
| `Literals.NestedArrayScenarios` | src/utils.spec.ts:179-213 | An array of an array and an array of a record evaluate recursively. |
| `Decorators.FirstDecorator` | src/utils.ts:111-114 | `find(isDecorator)`: nothing if and only if no modifier is a decorator. Otherwise the decorator at the first index holding one. |
| `Decorators.GetDecorator` | src/utils.ts:108-115 | Missing modifiers count as an empty list. Otherwise the result is the first decorator among the modifiers. |
| `Decorators.GetDecoratorName` | src/utils.ts:117-125 | Definition; its properties are proved in `NamedDecoratorShape`. |
| `Decorators.NamedDecoratorShape` | src/utils.ts:117-125 | A decorator has a name if and only if it is a call whose callee is an identifier. Name and arguments then rebuild the decorator expression. |
| `Decorators.GetDecoratorArguments` | src/utils.ts:127-135 | A decorator that is not a call has no arguments. |
| `Decorators.GetClassName` | src/utils.ts:141-147 | Throws `ClassHasNoName` exactly when the class is anonymous, and otherwise returns its identifier. |
| `Decorators.GetPropertyName` | src/utils.ts:152-158 | Throws `PropertyHasNoName` exactly when the property has no name. A computed name reads as `undefined`; any other name is its text. |
| `Orm.HasNameOption` | src/orm.ts:29 | Definition: key `name` present, holding a string, of non-zero length; used by `NameOptionWins` and `OtherArgumentsFallBack`. |
| `Orm.NamedByFirstArgument` | src/orm.ts:21-30 | Definition: the name comes from the first argument, as a string literal or as the `name` option; used by the contract of `EntityNameFromDecorator`. |
| `Orm.IsEntityDecorator` | src/orm.ts:10-12 | Holds if and only if the decorator is a call whose callee is the identifier `Entity`. |
| `Orm.EntityNameFromDecorator` | src/orm.ts:14-37 | A name returned is the class identifier or comes from the first argument. It throws only for an anonymous class, or for an options object whose evaluation throws `MalformedKey`. |
| `Orm.GetEntityName` | src/orm.ts:39-49 | Gives a result other than "no name" if and only if the node is a class whose first decorator is `@Entity(...)`. That result is the resolution of its name. |
| `Orm.NoArgumentsGiveClassName` | src/orm.ts:17-19 | With no arguments the name is the class identifier, and an anonymous class throws. |
| `Orm.StringArgumentIsName` | src/orm.ts:23-25 | A string-literal first argument is the name, verbatim. |
| `Orm.NameOptionWins` | src/orm.ts:27-30 | A non-empty string `name` in an options object wins over the class identifier. |
| `Orm.MalformedOptionsThrow` | src/orm.ts:27-28 | A member of the options object with a malformed key, at any depth, makes resolution throw `MalformedKey`. |
| `Orm.OtherArgumentsFallBack` | src/orm.ts:31-36 | Any other first argument, or options without a usable `name`, falls back to the class identifier. |
| `Orm.LaterArgumentsIgnored` | src/orm.ts:21 | Arguments after the first never change the result. |
| `Orm.OnlyFirstDecoratorCounts` | src/orm.ts:42-46 | If the first decorator is not `@Entity(...)`, the class is not an entity, whatever follows. |
| `GenerateSchema.GetDecorator` | src/generate-schema.ts:49-54 | The local copy gives the same decorator as `getDecorator` of src/utils.ts. |
| `GenerateSchema.GetDecoratorName` | src/generate-schema.ts:56-64 | The local copy gives the same name as `getDecoratorName` of src/utils.ts. |
| `GenerateSchema.IsEntityDecorator` | src/generate-schema.ts:66-68 | Agrees with orm's `isEntityDecorator`, and holds if and only if the decorator is a call named `Entity`. |
| `GenerateSchema.GetClassName` | src/generate-schema.ts:99-105 | The local copy agrees with `getClassName` of src/utils.ts, including the throw. |
| `GenerateSchema.GetDecoratorArguments` | src/generate-schema.ts:107-113 | The local copy agrees with `getDecoratorArguments` of src/utils.ts, so it is empty for a non-call. |
| `GenerateSchema.EntityName` | src/generate-schema.ts:70-93 | The local `getEntityName(decorator, classNode)` is `getEntityNameFromDecorator` of src/orm.ts, with the same precedence and the same throws. |
| `GenerateSchema.VisitNode` | src/generate-schema.ts:18-31 | Definition of the decision at one node; `VisitNodeAgreesWithOrm` proves it equal to orm's `getEntityName`. |
| `GenerateSchema.Visit` | src/generate-schema.ts:15-47 | Definition: the names computed at a node and then in its children's subtrees, the first throw stopping the walk; `VisitIsTraverse` relates it to `traverse`. |
| `GenerateSchema.VisitChildren` | src/generate-schema.ts:44-46 | Definition of the walk over the children from the `i`-th on; `VisitChildrenIsTraverse` relates it to `traverse`. |
| `GenerateSchema.EntityNamesAlong` | src/orm.spec.ts:31-34 | Reference definition: orm's `getEntityName` on each node in turn, collecting names, the first throw winning; its concatenation rule is `EntityNamesAlongConcat`. |
| `GenerateSchema.VisitNodeAgreesWithOrm` | src/generate-schema.ts:18-31 | At each node, `visit` computes an entity name exactly when orm's `getEntityName` gives one, and it is the same name or the same throw. |
| `GenerateSchema.VisitIsTraverse` | src/generate-schema.ts:15-47 | The names `visit` computes are, in order, those `getEntityName` gives along `traverse`. A throw at any node stops both alike. |
| `GenerateSchema.EntityNamesAlongConcat` | src/generate-schema.ts:44-46 | Collecting names along two consecutive node sequences is collecting along the first, then the second; the first throw wins. |
| `GenerateSchema.MainFixture` | src/tests/files/main.ts:3-14 | On the fixture file, with `@Entity("TEST", {...})` on class `Test`, `visit` finds exactly the entity `TEST`. |
| `GenerateSchema.NameFoundByTest` | src/orm.spec.ts:29-36 | Definition of what a test of src/orm.spec.ts observes: the last truthy name `getEntityName` gives along the nodes; `NameFoundByTestIsLastName` characterises it. |
| `GenerateSchema.NameFoundByTestIsLastName` | src/orm.spec.ts:31-34 | The test throws exactly when the collection of names throws. It finds no name exactly when every collected name is empty, and otherwise finds the last non-empty one. |
| `GenerateSchema.FileWithOneClass` | src/orm.spec.ts:13-14 | On a file of one class, the test finds what `getEntityName` gives for that class, an empty name excepted. |
| `GenerateSchema.NoNameScenario` | src/orm.spec.ts:27-37 | On the file `export class Test {}` the test finds no name. |
| `GenerateSchema.ClassNameScenario` | src/orm.spec.ts:39-49 | On `@Entity() export class Test {}` the test finds `Test`. |
| `GenerateSchema.StringArgumentScenario` | src/orm.spec.ts:51-61 | On `@Entity('Test') export class Name {}` the test finds `Test`. |
| `GenerateSchema.OptionsScenario` | src/orm.spec.ts:63-73 | On `@Entity({ name: "Test" }) export class Name {}` the test finds `Test`. |
| `TypeCompare.IsPrimitiveLiteral` | src/utils.ts:214-229 | Definition: a `null`, `true` or `false` literal; `ReflexiveIff` and `StringLiteralTypeNotReflexive` show its effect. |
| `TypeCompare.TypeNodesEqual` | src/utils.ts:168-212 | Specification of the comparison; `CompareTypeNodes` is proved to compute it, and `Symmetric`, `Transitive`, `ReflexiveIff` and `KindsMustAgree` characterise it. |
| `TypeCompare.MembersEqual` | src/utils.ts:240-264 | Specification of one member pair: two property signatures with the same name text, both typed, with equal types; `InterfaceMismatch` uses it. |
| `TypeCompare.InterfacesEqual` | src/utils.ts:231-268 | Specification: equal member counts and every member pair equal; `CompareInterfaces` is proved to compute it and `InterfacesSymmetric` characterises it. |
| `TypeCompare.CompareTypeNodes` | src/utils.ts:168-212 | The method with early returns computes exactly the specification predicate `TypeNodesEqual`. |
| `TypeCompare.CompareInterfaces` | src/utils.ts:231-268 | The loop computes exactly `InterfacesEqual`: equal member counts, and pairwise two typed property signatures with the same name and equal types. |
| `TypeCompare.KindsMustAgree` | src/utils.ts:169-171 | Nodes of different kinds are never equal. |
| `TypeCompare.Symmetric` | src/utils.ts:168-212 | The comparison does not depend on the order of its arguments. |
| `TypeCompare.Transitive` | src/utils.ts:168-212 | Equal to equal is equal. |
| `TypeCompare.ReflexiveIff` | src/utils.ts:173-185 | A node equals itself if and only if the comparison reaches no string, numeric or other non-primitive literal type in it. |
| `TypeCompare.StringLiteralTypeNotReflexive` | src/utils.ts:176-184 | The literal type `"a"` is not equal to itself. |
| `TypeCompare.UnionOrderMatters` | src/utils.ts:191-203 | Union members are compared in order: the union of `string` then `number` differs from the union of `number` then `string`. |
| `TypeCompare.TypeReferencesAlwaysEqual` | src/utils.ts:211 | Two nodes of a remaining kind, such as type references, are equal whatever they contain. |
| `TypeCompare.InterfacesSymmetric` | src/utils.ts:231-268 | Interface comparison does not depend on the order of its arguments. |
| `TypeCompare.InterfaceMismatch` | src/utils.ts:243-264 | One member pair that is not two typed property signatures with the same name makes the interfaces unequal. |
| `Traversal.Traverse` | src/utils.ts:160-166 | Definition: the nodes the callback receives, in order; its properties are proved in `TraverseVisitsEachNodeOnce`. |
| `Traversal.TraverseChildren` | src/utils.ts:163-165 | Definition of the callbacks for the children from the `i`-th on; `TraverseChildrenFollowsPaths` relates it to positions. |
| `Traversal.TraverseFollowsPaths` | src/utils.ts:160-166 | The `k`-th callback receives the node at the `k`-th listed position. |
| `Traversal.PathsComplete` | src/utils.ts:163-165 | The listed positions are exactly the positions that exist in the tree. |
| `Traversal.TraverseVisitsEachNodeOnce` | src/utils.ts:160-166 | One callback per position, on the node there, with no position twice. Each node is visited before all of its descendants. |
| `Traversal.TraverseStartsAtRoot` | src/utils.ts:161 | The first callback is on the start node. |
| `Naming.SnakeCase` | src/utils.ts:270-279 | Definition: the two rewrites, then lower-casing; its properties are proved in `SnakeCaseHasNoUpper`, `SnakeCaseKeepsLowerCase`, `SnakeCaseOnlyInsertsUnderscores` and `SnakeCaseIdempotent`. |
| `Naming.SplitAcronyms` | src/utils.ts:274 | Definition: a left-to-right, non-overlapping scan turning upper, upper, lower into upper, `_`, upper, lower; `SplitAcronymsOnlyInserts` and `SplitAcronymsIdentity` characterise it. |
| `Naming.SplitWords` | src/utils.ts:276 | Definition: a left-to-right, non-overlapping scan turning a lower-case letter or digit followed by an upper-case letter into the two with `_` between; `SplitWordsOnlyInserts` and `SplitWordsIdentity` characterise it. |
| `Naming.ToLowerAscii` | src/utils.ts:277 | Definition: ASCII lower-casing; `LowerHasNoUpper` and `LowerIdentity` characterise it. |
| `Naming.SplitAcronymsOnlyInserts` | src/utils.ts:274 | The first rewrite only inserts underscores. |
| `Naming.SplitWordsOnlyInserts` | src/utils.ts:276 | The second rewrite only inserts underscores. |
| `Naming.LowerHasNoUpper` | src/utils.ts:277 | Lower-casing keeps the length and leaves no upper-case letter. |
| `Naming.SnakeCaseHasNoUpper` | src/utils.ts:270-279 | On ASCII text the result holds no `A`–`Z`. |
| `Naming.SnakeCaseKeepsLowerCase` | src/utils.ts:270-279 | Text with no upper-case letter is returned unchanged. |
| `Naming.SnakeCaseOnlyInsertsUnderscores` | src/utils.ts:270-279 | With underscores removed, the result is the lower-cased input with underscores removed. |
| `Naming.SnakeCaseIdempotent` | src/utils.ts:270-279 | Converting twice is converting once. |
| `Naming.SnakeCaseExamples` | src/utils.ts:273-276 | `ABc` becomes `a_bc` and `aC` becomes `a_c`, the two cases the source's comments name. |

## Left out

- Parsing and printing. The TypeScript parser, `factory`, `ts-pattern`, reading the file
  (`fs.readFileSync`), `ts.createSourceFile` and every `console.log` of
  `generateSchema` and `visit` are not modelled. The syntax tree is an input datatype,
  and `visit` is modelled by the names it computes.
- `Number(text)`. The number is kept as its literal text (`Num("42")`), so `42` and
  `42.0` are different values here. The conversion is floating point.
- Key order and `__proto__`. The record is a Dafny `map`, so the insertion order of keys
  is not modelled. Neither is JavaScript's special treatment of an assignment to the
  key `__proto__`.
- `undefined` as an array element. The parser reads `undefined` as an identifier, which
  the array evaluator skips, and the model does the same with `IdentifierExpr("undefined")`.
  The keyword-kind node that the evaluator tests for (src/utils.ts:91-93) is kept as its
  own expression case, `UndefinedKeyword`.
- Other children in the traversal. `Traversal.Traverse` and
  `GenerateSchema.VisitIsTraverse` walk the declaration tree: the source file, its
  statements and class members. `ts.forEachChild` also enters expressions, decorators
  and type nodes. A class declared inside an expression is therefore not visited in the
  model.
- `Naming.SnakeCase`: requires ASCII input. JavaScript's `toLowerCase` is defined on all
  of Unicode.
- `camelCase` (src/utils.ts:281-286). Its regular expression depends on Unicode
  whitespace and `\w`, and on callback semantics that are not pinned down.
- Column-name and column-type resolution, the storage-type table and its exceptions
  list. src/orm.spec.ts:6-7 imports them from src/orm.ts and src/tests/content.ts,
  and neither of those two files defines them.
- The assertion-free `generateSchema` test (src/generate-schema.spec.ts). It calls
  `generateSchema` with the wrong number of arguments and checks nothing.
- The commented-out global at src/utils.ts:11-16.
