/** The part of the TypeScript syntax tree that the decorator reader looks at.
    Every constructor stands for one `ts.SyntaxKind`; a catch-all constructor stands
    for every other kind, so that each `match` below keeps the source's explicit
    "otherwise" branch. */
module Syntax {
  import opened Wrappers

  /** Expressions: initialisers, array elements and decorator expressions. */
  datatype Expr =
    | StringLiteral(text: string)
    | NumericLiteral(text: string)
    | TrueKeyword
    | FalseKeyword
    | NullKeyword
    | UndefinedKeyword
    | ObjectLiteral(properties: seq<ObjectMember>)
    | ArrayLiteral(elements: seq<Expr>)
    | IdentifierExpr(text: string)
    | Call(callee: Expr, arguments: seq<Expr>)
    | OtherExpression

  /** The members of an object literal (`ts.ObjectLiteralElementLike`). */
  datatype ObjectMember =
    | PropertyAssignment(name: PropertyKey, initializer: Expr)
    | ShorthandPropertyAssignment(shorthand: string)
    | SpreadAssignment(spread: Expr)
    | MethodOrAccessor(member: PropertyKey)

  /** A property name (`ts.PropertyName`). */
  datatype PropertyKey =
    | IdentifierKey(text: string)
    | StringLiteralKey(text: string)
    | NumericLiteralKey(text: string)
    | PrivateIdentifierKey(text: string)
    | ComputedKey(expression: Expr)

  /** `name.text` as the source reads it through a cast to `Identifier`: a computed
      name has no `text`, so the read gives `undefined`. */
  function KeyText(k: PropertyKey): Option<string> {
    if k.ComputedKey? then None else Some(k.text)
  }

  /** The errors the core throws, each with the message of the source's `Error`. */
  datatype Error =
    | MalformedKey        // "Property name is not an Identifier or StringLiteral"
    | ClassHasNoName      // "Class has no name"
    | PropertyHasNoName   // "Property has no name"

  /** A computation that returns a `T` or throws. */
  type Throws<T> = Result<T, Error>

  datatype Decorator = Decorator(expression: Expr)

  /** `node.modifiers` holds decorators and modifier keywords (`export`, `public`, ...) alike. */
  datatype Modifier =
    | DecoratorModifier(decorator: Decorator)
    | KeywordModifier(keyword: string)

  datatype Keyword =
    | StringKeyword | NumberKeyword | BooleanKeyword | AnyKeyword | UnknownKeyword
    | UndefinedTypeKeyword | VoidKeyword | NeverKeyword | ObjectKeyword | BigIntKeyword
    | SymbolKeyword

  /** The literal of a `LiteralTypeNode`. */
  datatype TypeLiteral =
    | NullLiteral
    | TrueLiteral
    | FalseLiteral
    | StringLiteralType(text: string)
    | NumericLiteralType(text: string)
    | OtherLiteralType

  /** Type nodes. `OtherType(kind)` stands for every remaining kind (function types,
      tuples, type literals, ...), `kind` being its syntax kind. */
  datatype TypeNode =
    | LiteralType(literal: TypeLiteral)
    | UnionType(types: seq<TypeNode>)
    | IntersectionType(types: seq<TypeNode>)
    | ArrayType(elementType: TypeNode)
    | ParenthesizedType(inner: TypeNode)
    | KeywordType(keyword: Keyword)
    | TypeReference(typeName: string, typeArguments: seq<TypeNode>)
    | OtherType(kind: nat)

  /** Members of an interface (`ts.TypeElement`). */
  datatype TypeElement =
    | PropertySignature(name: PropertyKey, typeAnnotation: Option<TypeNode>)
    | MethodSignature(methodName: PropertyKey)
    | IndexSignature
    | CallSignature

  datatype InterfaceDecl = InterfaceDecl(interfaceName: string, members: seq<TypeElement>)

  /** What a tree node is. Class members and statements are the node's children. */
  datatype Decl =
    | SourceFile
    | ClassDeclaration(modifiers: Option<seq<Modifier>>, className: Option<string>)
    | PropertyDeclaration(modifiers: Option<seq<Modifier>>, propertyName: Option<PropertyKey>,
                          typeAnnotation: Option<TypeNode>)
    | MethodDeclaration(modifiers: Option<seq<Modifier>>, methodName: Option<PropertyKey>)
    | InterfaceDeclaration(iface: InterfaceDecl)
    | OtherNode

  /** A node of the syntax tree with its children in `ts.forEachChild` order. */
  datatype Node = Node(data: Decl, children: seq<Node>)

  /** The kinds of declaration the source's `getDecorator` accepts. */
  predicate IsDecoratable(d: Decl) {
    d.ClassDeclaration? || d.PropertyDeclaration? || d.MethodDeclaration?
  }
}
