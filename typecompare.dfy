/** Structural comparison of type nodes and interfaces of src/utils.ts.

    `TypeNodesEqual` and `InterfacesEqual` state the comparison; `CompareTypeNodes` and
    `CompareInterfaces` are the source's index loops with early return, proved to compute
    them. The comparison is symmetric and transitive but not reflexive: a string or
    numeric literal type is unequal even to itself. */
module TypeCompare {
  import opened Wrappers
  import opened Syntax

  /** The syntax kind of a type node; every keyword type has a kind of its own. */
  datatype TypeKind =
    | LiteralTypeKind
    | UnionTypeKind
    | IntersectionTypeKind
    | ArrayTypeKind
    | ParenthesizedTypeKind
    | KeywordKind(keyword: Keyword)
    | TypeReferenceKind
    | OtherKind(kind: nat)

  function Kind(t: TypeNode): TypeKind {
    match t
    case LiteralType(_) => LiteralTypeKind
    case UnionType(_) => UnionTypeKind
    case IntersectionType(_) => IntersectionTypeKind
    case ArrayType(_) => ArrayTypeKind
    case ParenthesizedType(_) => ParenthesizedTypeKind
    case KeywordType(k) => KeywordKind(k)
    case TypeReference(_, _) => TypeReferenceKind
    case OtherType(k) => OtherKind(k)
  }

  /** isPrimitiveLiteral: the `null`, `true` and `false` literals. */
  predicate IsPrimitiveLiteral(l: TypeLiteral) {
    l.NullLiteral? || l.TrueLiteral? || l.FalseLiteral?
  }

  /** The comparison: same kind, and then per kind: literal types only when both are
      primitive literals of the same kind; union and intersection members pairwise in
      order; array element types; any other pair of the same kind is equal. */
  predicate TypeNodesEqual(a: TypeNode, b: TypeNode)
    decreases a
  {
    if Kind(a) != Kind(b) then false
    else
      match a
      case LiteralType(l) =>
        IsPrimitiveLiteral(l) && IsPrimitiveLiteral(b.literal) && l == b.literal
      case UnionType(xs) =>
        |xs| == |b.types| && forall i :: 0 <= i < |xs| ==> TypeNodesEqual(xs[i], b.types[i])
      case IntersectionType(xs) =>
        |xs| == |b.types| && forall i :: 0 <= i < |xs| ==> TypeNodesEqual(xs[i], b.types[i])
      case ArrayType(x) => TypeNodesEqual(x, b.elementType)
      case _ => true
  }

  /** compareTypeNodes. */
  method CompareTypeNodes(node1: TypeNode, node2: TypeNode) returns (equal: bool)
    ensures equal == TypeNodesEqual(node1, node2)
    decreases node1
  {
    if Kind(node1) != Kind(node2) {
      return false;
    }
    if node1.LiteralType? && node2.LiteralType? {
      if IsPrimitiveLiteral(node1.literal) && IsPrimitiveLiteral(node2.literal) {
        return node1.literal == node2.literal;
      } else {
        return false;
      }
    }
    var isUnion := node1.UnionType? && node2.UnionType?;
    var isIntersection := node1.IntersectionType? && node2.IntersectionType?;
    if isUnion || isIntersection {
      if |node1.types| != |node2.types| {
        return false;
      }
      for i := 0 to |node1.types|
        invariant forall j :: 0 <= j < i ==> TypeNodesEqual(node1.types[j], node2.types[j])
      {
        var same := CompareTypeNodes(node1.types[i], node2.types[i]);
        if !same {
          return false;
        }
      }
      return true;
    }
    if node1.ArrayType? && node2.ArrayType? {
      equal := CompareTypeNodes(node1.elementType, node2.elementType);
      return;
    }
    return true;
  }

  /** One pair of interface members is equal: two property signatures with the same name
      text and types that are both present and equal. */
  predicate MembersEqual(m1: TypeElement, m2: TypeElement) {
    && m1.PropertySignature?
    && m2.PropertySignature?
    && KeyText(m1.name) == KeyText(m2.name)
    && m1.typeAnnotation.Some?
    && m2.typeAnnotation.Some?
    && TypeNodesEqual(m1.typeAnnotation.value, m2.typeAnnotation.value)
  }

  /** Interfaces are equal when they have as many members and the members are equal
      pairwise, in order. */
  predicate InterfacesEqual(i1: InterfaceDecl, i2: InterfaceDecl) {
    && |i1.members| == |i2.members|
    && forall i :: 0 <= i < |i1.members| ==> MembersEqual(i1.members[i], i2.members[i])
  }

  /** compareInterfaces. */
  method CompareInterfaces(i1: InterfaceDecl, i2: InterfaceDecl) returns (equal: bool)
    ensures equal == InterfacesEqual(i1, i2)
  {
    if |i1.members| != |i2.members| {
      return false;
    }
    for i := 0 to |i1.members|
      invariant forall j :: 0 <= j < i ==> MembersEqual(i1.members[j], i2.members[j])
    {
      var member1 := i1.members[i];
      var member2 := i2.members[i];
      if !member1.PropertySignature? || !member2.PropertySignature? {
        return false;
      }
      if KeyText(member1.name) != KeyText(member2.name) {
        return false;
      }
      if member1.typeAnnotation.None? || member2.typeAnnotation.None? {
        return false;
      }
      var same := CompareTypeNodes(member1.typeAnnotation.value, member2.typeAnnotation.value);
      if !same {
        return false;
      }
    }
    return true;
  }

  /* ---- Properties of the comparison ---- */

  /** Nodes of different kinds are never equal. */
  lemma KindsMustAgree(a: TypeNode, b: TypeNode)
    ensures TypeNodesEqual(a, b) ==> Kind(a) == Kind(b)
  {
  }

  lemma {:induction false} Symmetric(a: TypeNode, b: TypeNode)
    ensures TypeNodesEqual(a, b) == TypeNodesEqual(b, a)
    decreases a
  {
    if Kind(a) == Kind(b) {
      match a
      case UnionType(xs) =>
        forall i | 0 <= i < |xs| && i < |b.types| {
          Symmetric(xs[i], b.types[i]);
        }
      case IntersectionType(xs) =>
        forall i | 0 <= i < |xs| && i < |b.types| {
          Symmetric(xs[i], b.types[i]);
        }
      case ArrayType(x) => Symmetric(x, b.elementType);
      case _ =>
    }
  }

  lemma {:induction false} Transitive(a: TypeNode, b: TypeNode, c: TypeNode)
    requires TypeNodesEqual(a, b) && TypeNodesEqual(b, c)
    ensures TypeNodesEqual(a, c)
    decreases a
  {
    match a
    case UnionType(xs) =>
      forall i | 0 <= i < |xs| {
        Transitive(xs[i], b.types[i], c.types[i]);
      }
    case IntersectionType(xs) =>
      forall i | 0 <= i < |xs| {
        Transitive(xs[i], b.types[i], c.types[i]);
      }
    case ArrayType(x) => Transitive(x, b.elementType, c.elementType);
    case _ =>
  }

  /** The comparison reaches a string, numeric or other non-primitive literal type. */
  predicate ReachesValueLiteral(t: TypeNode)
    decreases t
  {
    match t
    case LiteralType(l) => !IsPrimitiveLiteral(l)
    case UnionType(xs) => exists i :: 0 <= i < |xs| && ReachesValueLiteral(xs[i])
    case IntersectionType(xs) => exists i :: 0 <= i < |xs| && ReachesValueLiteral(xs[i])
    case ArrayType(x) => ReachesValueLiteral(x)
    case _ => false
  }

  /** A node is equal to itself exactly when the comparison reaches no non-primitive
      literal type in it. */
  lemma {:induction false} ReflexiveIff(t: TypeNode)
    ensures TypeNodesEqual(t, t) <==> !ReachesValueLiteral(t)
    decreases t
  {
    match t
    case UnionType(xs) =>
      forall i | 0 <= i < |xs| {
        ReflexiveIff(xs[i]);
      }
    case IntersectionType(xs) =>
      forall i | 0 <= i < |xs| {
        ReflexiveIff(xs[i]);
      }
    case ArrayType(x) => ReflexiveIff(x);
    case _ =>
  }

  /** `"a"` as a type is not equal to `"a"`. */
  lemma StringLiteralTypeNotReflexive(text: string)
    ensures !TypeNodesEqual(LiteralType(StringLiteralType(text)), LiteralType(StringLiteralType(text)))
  {
  }

  /** Union members are compared in order: `string | number` is not `number | string`. */
  lemma UnionOrderMatters()
    ensures !TypeNodesEqual(UnionType([KeywordType(StringKeyword), KeywordType(NumberKeyword)]),
                            UnionType([KeywordType(NumberKeyword), KeywordType(StringKeyword)]))
  {
    var a := UnionType([KeywordType(StringKeyword), KeywordType(NumberKeyword)]);
    var b := UnionType([KeywordType(NumberKeyword), KeywordType(StringKeyword)]);
    assert !TypeNodesEqual(a.types[0], b.types[0]);
  }

  /** The contents of nodes of the remaining kinds are not looked at: any two type
      references are equal, whatever they name. */
  lemma TypeReferencesAlwaysEqual(n1: string, args1: seq<TypeNode>, n2: string, args2: seq<TypeNode>)
    ensures TypeNodesEqual(TypeReference(n1, args1), TypeReference(n2, args2))
  {
  }

  lemma InterfacesSymmetric(i1: InterfaceDecl, i2: InterfaceDecl)
    ensures InterfacesEqual(i1, i2) == InterfacesEqual(i2, i1)
  {
    forall i | 0 <= i < |i1.members| && i < |i2.members|
      ensures MembersEqual(i1.members[i], i2.members[i]) == MembersEqual(i2.members[i], i1.members[i])
    {
      var m1, m2 := i1.members[i], i2.members[i];
      if m1.PropertySignature? && m2.PropertySignature? &&
         m1.typeAnnotation.Some? && m2.typeAnnotation.Some? {
        Symmetric(m1.typeAnnotation.value, m2.typeAnnotation.value);
      }
    }
  }

  /** A member pair that is not two typed property signatures of the same name makes the
      interfaces unequal, whatever the other members are. */
  lemma InterfaceMismatch(i1: InterfaceDecl, i2: InterfaceDecl, k: nat)
    requires k < |i1.members| && k < |i2.members|
    requires || !i1.members[k].PropertySignature?
             || !i2.members[k].PropertySignature?
             || KeyText(i1.members[k].name) != KeyText(i2.members[k].name)
             || i1.members[k].typeAnnotation.None?
             || i2.members[k].typeAnnotation.None?
    ensures !InterfacesEqual(i1, i2)
  {
  }
}
