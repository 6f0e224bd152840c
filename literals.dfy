/** The literal evaluator of src/utils.ts: an object-literal or array-literal expression
    becomes a plain JavaScript value.

    The evaluation is given twice: as specification functions that fold over a prefix of
    the members (`ObjectFold`, `ArrayFold`), and as the source's loops that build the
    record or array step by step (`TransformObject`, `TransformArray`), which are proved
    to compute the folds. */
module Literals {
  import opened Wrappers
  import opened Syntax

  /** A plain value. `Num` keeps the literal's text: `Number(text)` is not modelled. */
  datatype Value =
    | Str(s: string)
    | Num(literal: string)
    | Bool(b: bool)
    | Null
    | Undefined
    | Record(fields: map<string, Value>)
    | List(items: seq<Value>)

  /** The key shapes the object evaluator accepts. */
  predicate IsValidKey(k: PropertyKey) {
    k.IdentifierKey? || k.StringLiteralKey?
  }

  /** The value an object initialiser contributes; `None` when its shape is not
      recognised and it is skipped. */
  function InitializerValue(e: Expr): Throws<Option<Value>>
    decreases e, 2
  {
    match e
    case StringLiteral(t) => Ok(Some(Str(t)))
    case NumericLiteral(t) => Ok(Some(Num(t)))
    case TrueKeyword => Ok(Some(Bool(true)))
    case FalseKeyword => Ok(Some(Bool(false)))
    case NullKeyword => Ok(Some(Null))
    case ObjectLiteral(properties) =>
      var fields :- ObjectFold(e, |properties|);
      Ok(Some(Record(fields)))
    case ArrayLiteral(elements) =>
      var items :- ArrayFold(e, |elements|);
      Ok(Some(List(items)))
    case _ => Ok(None)
  }

  /** The value an array element contributes. Unlike an object initialiser, the
      `undefined` keyword is recognised here. */
  function ElementValue(e: Expr): Throws<Option<Value>>
    decreases e, 2
  {
    match e
    case StringLiteral(t) => Ok(Some(Str(t)))
    case NumericLiteral(t) => Ok(Some(Num(t)))
    case TrueKeyword => Ok(Some(Bool(true)))
    case FalseKeyword => Ok(Some(Bool(false)))
    case NullKeyword => Ok(Some(Null))
    case UndefinedKeyword => Ok(Some(Undefined))
    case ObjectLiteral(properties) =>
      var fields :- ObjectFold(e, |properties|);
      Ok(Some(Record(fields)))
    case ArrayLiteral(elements) =>
      var items :- ArrayFold(e, |elements|);
      Ok(Some(List(items)))
    case _ => Ok(None)
  }

  /** The record built from the first `n` members of record literal `e`. */
  function ObjectFold(e: Expr, n: nat): Throws<map<string, Value>>
    requires e.ObjectLiteral? && n <= |e.properties|
    decreases e, 1, n
  {
    if n == 0 then Ok(map[])
    else
      var fields :- ObjectFold(e, n - 1);
      match e.properties[n - 1]
      case PropertyAssignment(key, initializer) =>
        if !IsValidKey(key) then Err(MalformedKey)
        else
          var v :- InitializerValue(initializer);
          Ok(if v.Some? then fields[key.text := v.value] else fields)
      case _ => Ok(fields)
  }

  /** The array built from the first `n` elements of array literal `e`. */
  function ArrayFold(e: Expr, n: nat): Throws<seq<Value>>
    requires e.ArrayLiteral? && n <= |e.elements|
    decreases e, 1, n
  {
    if n == 0 then Ok([])
    else
      var items :- ArrayFold(e, n - 1);
      var v :- ElementValue(e.elements[n - 1]);
      Ok(if v.Some? then items + [v.value] else items)
  }

  function ObjectValue(e: Expr): Throws<map<string, Value>>
    requires e.ObjectLiteral?
  {
    ObjectFold(e, |e.properties|)
  }

  function ArrayValue(e: Expr): Throws<seq<Value>>
    requires e.ArrayLiteral?
  {
    ArrayFold(e, |e.elements|)
  }

  /** Once a prefix of the members throws, every longer prefix throws the same error. */
  lemma {:induction false} ObjectFailureSticks(e: Expr, n: nat, m: nat)
    requires e.ObjectLiteral? && n <= m <= |e.properties|
    requires ObjectFold(e, n).Err?
    ensures ObjectFold(e, m) == ObjectFold(e, n)
    decreases m
  {
    if m > n {
      ObjectFailureSticks(e, n, m - 1);
    }
  }

  lemma {:induction false} ArrayFailureSticks(e: Expr, n: nat, m: nat)
    requires e.ArrayLiteral? && n <= m <= |e.elements|
    requires ArrayFold(e, n).Err?
    ensures ArrayFold(e, m) == ArrayFold(e, n)
    decreases m
  {
    if m > n {
      ArrayFailureSticks(e, n, m - 1);
    }
  }

  /** transformObjectExpressionToObjectLiteral: one pass over the members, writing
      `object[key]` for each recognised initialiser and throwing on a malformed key. */
  method TransformObject(node: Expr) returns (r: Throws<map<string, Value>>)
    requires node.ObjectLiteral?
    ensures r == ObjectValue(node)
    decreases node
  {
    var record: map<string, Value> := map[];
    for i := 0 to |node.properties|
      invariant ObjectFold(node, i) == Ok(record)
    {
      var property := node.properties[i];
      if !property.PropertyAssignment? {
        continue;
      }
      var identifier := property.name;
      if !IsValidKey(identifier) {
        ObjectFailureSticks(node, i + 1, |node.properties|);
        return Err(MalformedKey);
      }
      var key := identifier.text;
      match property.initializer {
        case StringLiteral(t) =>
          record := record[key := Str(t)];
        case NumericLiteral(t) =>
          record := record[key := Num(t)];
        case TrueKeyword =>
          record := record[key := Bool(true)];
        case FalseKeyword =>
          record := record[key := Bool(false)];
        case NullKeyword =>
          record := record[key := Null];
        case ObjectLiteral(_) =>
          var nested := TransformObject(property.initializer);
          if nested.Err? {
            ObjectFailureSticks(node, i + 1, |node.properties|);
            return Err(nested.error);
          }
          record := record[key := Record(nested.value)];
        case ArrayLiteral(_) =>
          var nested := TransformArray(property.initializer);
          if nested.Err? {
            ObjectFailureSticks(node, i + 1, |node.properties|);
            return Err(nested.error);
          }
          record := record[key := List(nested.value)];
        case _ =>
      }
    }
    return Ok(record);
  }

  /** transformArrayLiteralExpressionToArrayLiteral: one pass over the elements, pushing
      the value of each recognised element. */
  method TransformArray(node: Expr) returns (r: Throws<seq<Value>>)
    requires node.ArrayLiteral?
    ensures r == ArrayValue(node)
    decreases node
  {
    var items: seq<Value> := [];
    for i := 0 to |node.elements|
      invariant ArrayFold(node, i) == Ok(items)
    {
      var element := node.elements[i];
      match element {
        case StringLiteral(t) =>
          items := items + [Str(t)];
        case NumericLiteral(t) =>
          items := items + [Num(t)];
        case TrueKeyword =>
          items := items + [Bool(true)];
        case FalseKeyword =>
          items := items + [Bool(false)];
        case NullKeyword =>
          items := items + [Null];
        case UndefinedKeyword =>
          items := items + [Undefined];
        case ObjectLiteral(_) =>
          var nested := TransformObject(element);
          if nested.Err? {
            ArrayFailureSticks(node, i + 1, |node.elements|);
            return Err(nested.error);
          }
          items := items + [Record(nested.value)];
        case ArrayLiteral(_) =>
          var nested := TransformArray(element);
          if nested.Err? {
            ArrayFailureSticks(node, i + 1, |node.elements|);
            return Err(nested.error);
          }
          items := items + [List(nested.value)];
        case _ =>
      }
    }
    return Ok(items);
  }

  /* ---- What the evaluation means ---- */

  /** Arrays accept `undefined`; objects skip it; on every other shape the two agree. */
  lemma ContextsAgree(e: Expr)
    ensures e != UndefinedKeyword ==> ElementValue(e) == InitializerValue(e)
    ensures InitializerValue(UndefinedKeyword) == Ok(None)
    ensures ElementValue(UndefinedKeyword) == Ok(Some(Undefined))
  {
  }

  /** The only error the evaluator raises is the malformed key, at any depth. */
  lemma {:induction false} OnlyMalformedKey(e: Expr)
    ensures InitializerValue(e).Err? ==> InitializerValue(e).error == MalformedKey
    ensures ElementValue(e).Err? ==> ElementValue(e).error == MalformedKey
    decreases e, 2
  {
    match e
    case ObjectLiteral(properties) => ObjectFoldOnlyMalformedKey(e, |properties|);
    case ArrayLiteral(elements) => ArrayFoldOnlyMalformedKey(e, |elements|);
    case _ =>
  }

  lemma {:induction false} ObjectFoldOnlyMalformedKey(e: Expr, n: nat)
    requires e.ObjectLiteral? && n <= |e.properties|
    ensures ObjectFold(e, n).Err? ==> ObjectFold(e, n).error == MalformedKey
    decreases e, 1, n
  {
    if n > 0 {
      ObjectFoldOnlyMalformedKey(e, n - 1);
      if e.properties[n - 1].PropertyAssignment? {
        OnlyMalformedKey(e.properties[n - 1].initializer);
      }
    }
  }

  lemma {:induction false} ArrayFoldOnlyMalformedKey(e: Expr, n: nat)
    requires e.ArrayLiteral? && n <= |e.elements|
    ensures ArrayFold(e, n).Err? ==> ArrayFold(e, n).error == MalformedKey
    decreases e, 1, n
  {
    if n > 0 {
      ArrayFoldOnlyMalformedKey(e, n - 1);
      OnlyMalformedKey(e.elements[n - 1]);
    }
  }

  /** A member that makes the object evaluation throw: a property assignment whose key
      is neither an identifier nor a string literal, or whose initialiser throws. */
  predicate MemberThrows(m: ObjectMember) {
    m.PropertyAssignment? && (!IsValidKey(m.name) || InitializerValue(m.initializer).Err?)
  }

  /** Evaluating the first `n` members throws exactly when one of them throws.
      Members that are not property assignments never do. */
  lemma {:induction false} ObjectThrowsIff(e: Expr, n: nat)
    requires e.ObjectLiteral? && n <= |e.properties|
    ensures ObjectFold(e, n).Err? <==> exists i :: 0 <= i < n && MemberThrows(e.properties[i])
  {
    if n > 0 {
      ObjectThrowsIff(e, n - 1);
    }
  }

  /** Member `m` stores a value under key `k`: a well-keyed property assignment whose
      initialiser is recognised. */
  predicate AssignsKey(m: ObjectMember, k: string) {
    && m.PropertyAssignment?
    && IsValidKey(m.name)
    && m.name.text == k
    && InitializerValue(m.initializer).Ok?
    && InitializerValue(m.initializer).value.Some?
  }

  /** The keys of the record are exactly the keys some member stores a value under:
      skipped members and skipped initialisers add none. */
  lemma {:induction false} ObjectKeys(e: Expr, n: nat)
    requires e.ObjectLiteral? && n <= |e.properties|
    requires ObjectFold(e, n).Ok?
    ensures forall k :: k in ObjectFold(e, n).value <==>
      exists i :: 0 <= i < n && AssignsKey(e.properties[i], k)
  {
    if n > 0 {
      ObjectKeys(e, n - 1);
    }
  }

  /** Under each key the record holds the value of the last member storing a value
      under it: a later assignment overwrites an earlier one, a later skipped one
      does not. */
  lemma {:induction false} ObjectLastAssignmentWins(e: Expr, n: nat, i: nat, k: string)
    requires e.ObjectLiteral? && i < n <= |e.properties|
    requires ObjectFold(e, n).Ok?
    requires AssignsKey(e.properties[i], k)
    requires forall j :: i < j < n ==> !AssignsKey(e.properties[j], k)
    ensures k in ObjectFold(e, n).value
    ensures ObjectFold(e, n).value[k] == InitializerValue(e.properties[i].initializer).value.value
  {
    if n - 1 > i {
      ObjectLastAssignmentWins(e, n - 1, i, k);
    }
  }

  /** Element `x` contributes a value to the array. */
  predicate Recognized(x: Expr) {
    ElementValue(x).Ok? && ElementValue(x).value.Some?
  }

  /** The number of recognised elements among the first `n`. */
  function RecognizedBefore(e: Expr, n: nat): (c: nat)
    requires e.ArrayLiteral? && n <= |e.elements|
    ensures c <= n
  {
    if n == 0 then 0
    else RecognizedBefore(e, n - 1) + (if Recognized(e.elements[n - 1]) then 1 else 0)
  }

  /** Evaluating the first `n` elements throws exactly when one of them throws. */
  lemma {:induction false} ArrayThrowsIff(e: Expr, n: nat)
    requires e.ArrayLiteral? && n <= |e.elements|
    ensures ArrayFold(e, n).Err? <==> exists i :: 0 <= i < n && ElementValue(e.elements[i]).Err?
  {
    if n > 0 {
      ArrayThrowsIff(e, n - 1);
    }
  }

  /** Order is preserved and unrecognised elements are dropped: the array has one value
      per recognised element, and the value of element `i` sits at the position given by
      the number of recognised elements before it. */
  lemma {:induction false} ArrayPositions(e: Expr, n: nat)
    requires e.ArrayLiteral? && n <= |e.elements|
    requires ArrayFold(e, n).Ok?
    ensures |ArrayFold(e, n).value| == RecognizedBefore(e, n)
    ensures forall i :: 0 <= i < n && Recognized(e.elements[i]) ==>
      RecognizedBefore(e, i) < |ArrayFold(e, n).value| &&
      ArrayFold(e, n).value[RecognizedBefore(e, i)] == ElementValue(e.elements[i]).value.value
  {
    if n > 0 {
      ArrayPositions(e, n - 1);
      RecognizedBeforeMonotone(e, n - 1);
    }
  }

  lemma {:induction false} RecognizedBeforeMonotone(e: Expr, n: nat)
    requires e.ArrayLiteral? && n <= |e.elements|
    ensures forall i :: 0 <= i <= n ==> RecognizedBefore(e, i) <= RecognizedBefore(e, n)
  {
    if n > 0 {
      RecognizedBeforeMonotone(e, n - 1);
    }
  }

  /** All elements recognised exactly when none is dropped. */
  lemma {:induction false} RecognizedBeforeFull(e: Expr, n: nat)
    requires e.ArrayLiteral? && n <= |e.elements|
    ensures RecognizedBefore(e, n) == n <==> forall i :: 0 <= i < n ==> Recognized(e.elements[i])
  {
    if n > 0 {
      RecognizedBeforeFull(e, n - 1);
    }
  }

  /** The array is never longer than the literal, and exactly as long when every
      element is recognised; then it holds the elements' values in order. */
  lemma ArrayLength(e: Expr)
    requires e.ArrayLiteral? && ArrayValue(e).Ok?
    ensures |ArrayValue(e).value| <= |e.elements|
    ensures |ArrayValue(e).value| == |e.elements| <==>
      forall i :: 0 <= i < |e.elements| ==> Recognized(e.elements[i])
    ensures (forall i :: 0 <= i < |e.elements| ==> Recognized(e.elements[i])) ==>
      forall i :: 0 <= i < |e.elements| ==>
        ArrayValue(e).value[i] == ElementValue(e.elements[i]).value.value
  {
    var n := |e.elements|;
    ArrayPositions(e, n);
    RecognizedBeforeFull(e, n);
    if forall i :: 0 <= i < n ==> Recognized(e.elements[i]) {
      forall i | 0 <= i < n
        ensures ArrayValue(e).value[i] == ElementValue(e.elements[i]).value.value
      {
        RecognizedBeforeFull(e, i);
      }
    }
  }

  /* ---- The cases of src/utils.spec.ts ---- */

  /** `{ name: "John Doe" }`, `{ age: 42 }` and `{ isNull: null }`. */
  lemma ScalarRecordScenarios()
    ensures ObjectValue(ObjectLiteral([PropertyAssignment(IdentifierKey("name"), StringLiteral("John Doe"))]))
      == Ok(map["name" := Str("John Doe")])
    ensures ObjectValue(ObjectLiteral([PropertyAssignment(IdentifierKey("age"), NumericLiteral("42"))]))
      == Ok(map["age" := Num("42")])
    ensures ObjectValue(ObjectLiteral([PropertyAssignment(IdentifierKey("isNull"), NullKeyword)]))
      == Ok(map["isNull" := Null])
  {
    assert ObjectFold(ObjectLiteral([PropertyAssignment(IdentifierKey("name"), StringLiteral("John Doe"))]), 1)
      == Ok(map["name" := Str("John Doe")]);
    assert ObjectFold(ObjectLiteral([PropertyAssignment(IdentifierKey("age"), NumericLiteral("42"))]), 1)
      == Ok(map["age" := Num("42")]);
    assert ObjectFold(ObjectLiteral([PropertyAssignment(IdentifierKey("isNull"), NullKeyword)]), 1)
      == Ok(map["isNull" := Null]);
  }

  /** `{ isTrue: true, isFalse: false }`. */
  lemma BooleanRecordScenario()
    ensures ObjectValue(ObjectLiteral([PropertyAssignment(IdentifierKey("isTrue"), TrueKeyword),
                                       PropertyAssignment(IdentifierKey("isFalse"), FalseKeyword)]))
      == Ok(map["isTrue" := Bool(true), "isFalse" := Bool(false)])
  {
    var e := ObjectLiteral([PropertyAssignment(IdentifierKey("isTrue"), TrueKeyword),
                            PropertyAssignment(IdentifierKey("isFalse"), FalseKeyword)]);
    assert ObjectFold(e, 1) == Ok(map["isTrue" := Bool(true)]);
    assert ObjectFold(e, 2) == Ok(map["isTrue" := Bool(true), "isFalse" := Bool(false)]);
  }

  /** `{ nested: { name: "John Doe" } }` and
      `{ array: ["John Doe", 42, true, false, null] }`. */
  lemma NestedRecordScenarios()
    ensures ObjectValue(ObjectLiteral([PropertyAssignment(IdentifierKey("nested"),
              ObjectLiteral([PropertyAssignment(IdentifierKey("name"), StringLiteral("John Doe"))]))]))
      == Ok(map["nested" := Record(map["name" := Str("John Doe")])])
    ensures ObjectValue(ObjectLiteral([PropertyAssignment(IdentifierKey("array"),
              ArrayLiteral([StringLiteral("John Doe"), NumericLiteral("42"), TrueKeyword, FalseKeyword, NullKeyword]))]))
      == Ok(map["array" := List([Str("John Doe"), Num("42"), Bool(true), Bool(false), Null])])
  {
    var inner := ObjectLiteral([PropertyAssignment(IdentifierKey("name"), StringLiteral("John Doe"))]);
    assert ObjectFold(inner, 1) == Ok(map["name" := Str("John Doe")]);
    assert InitializerValue(inner) == Ok(Some(Record(map["name" := Str("John Doe")])));
    var outer := ObjectLiteral([PropertyAssignment(IdentifierKey("nested"), inner)]);
    assert ObjectFold(outer, 1) == Ok(map["nested" := Record(map["name" := Str("John Doe")])]);

    var a := ArrayLiteral([StringLiteral("John Doe"), NumericLiteral("42"), TrueKeyword, FalseKeyword, NullKeyword]);
    var none: seq<Value> := [];
    assert ElementValue(a.elements[0]) == Ok(Some(Str("John Doe")));
    assert none + [Str("John Doe")] == [Str("John Doe")];
    assert ArrayFold(a, 1) == Ok([Str("John Doe")]);
    assert ElementValue(a.elements[1]) == Ok(Some(Num("42")));
    assert [Str("John Doe")] + [Num("42")] == [Str("John Doe"), Num("42")];
    assert ArrayFold(a, 2) == Ok([Str("John Doe"), Num("42")]);
    assert ElementValue(a.elements[2]) == Ok(Some(Bool(true)));
    assert [Str("John Doe"), Num("42")] + [Bool(true)] == [Str("John Doe"), Num("42"), Bool(true)];
    assert ArrayFold(a, 3) == Ok([Str("John Doe"), Num("42"), Bool(true)]);
    assert ElementValue(a.elements[3]) == Ok(Some(Bool(false)));
    assert [Str("John Doe"), Num("42"), Bool(true)] + [Bool(false)]
      == [Str("John Doe"), Num("42"), Bool(true), Bool(false)];
    assert ArrayFold(a, 4) == Ok([Str("John Doe"), Num("42"), Bool(true), Bool(false)]);
    assert ElementValue(a.elements[4]) == Ok(Some(Null));
    assert [Str("John Doe"), Num("42"), Bool(true), Bool(false)] + [Null]
      == [Str("John Doe"), Num("42"), Bool(true), Bool(false), Null];
    assert ArrayFold(a, 5) == Ok([Str("John Doe"), Num("42"), Bool(true), Bool(false), Null]);
    assert InitializerValue(a) == Ok(Some(List([Str("John Doe"), Num("42"), Bool(true), Bool(false), Null])));
    var withArray := ObjectLiteral([PropertyAssignment(IdentifierKey("array"), a)]);
    assert ObjectFold(withArray, 1) ==
      Ok(map["array" := List([Str("John Doe"), Num("42"), Bool(true), Bool(false), Null])]);
  }

  /** `[["John Doe"]]` and `[{ name: "John Doe" }]`. */
  lemma NestedArrayScenarios()
    ensures ArrayValue(ArrayLiteral([ArrayLiteral([StringLiteral("John Doe")])]))
      == Ok([List([Str("John Doe")])])
    ensures ArrayValue(ArrayLiteral([ObjectLiteral([PropertyAssignment(IdentifierKey("name"), StringLiteral("John Doe"))])]))
      == Ok([Record(map["name" := Str("John Doe")])])
  {
    var none: seq<Value> := [];
    var inner := ArrayLiteral([StringLiteral("John Doe")]);
    assert ElementValue(inner.elements[0]) == Ok(Some(Str("John Doe")));
    assert none + [Str("John Doe")] == [Str("John Doe")];
    assert ArrayFold(inner, 1) == Ok([Str("John Doe")]);
    assert ElementValue(inner) == Ok(Some(List([Str("John Doe")])));
    assert none + [List([Str("John Doe")])] == [List([Str("John Doe")])];
    assert ArrayFold(ArrayLiteral([inner]), 1) == Ok([List([Str("John Doe")])]);
    var record := ObjectLiteral([PropertyAssignment(IdentifierKey("name"), StringLiteral("John Doe"))]);
    assert ObjectFold(record, 1) == Ok(map["name" := Str("John Doe")]);
    assert ElementValue(record) == Ok(Some(Record(map["name" := Str("John Doe")])));
    assert none + [Record(map["name" := Str("John Doe")])] == [Record(map["name" := Str("John Doe")])];
    assert ArrayFold(ArrayLiteral([record]), 1) == Ok([Record(map["name" := Str("John Doe")])]);
  }
}
