/** The projection type of a type (src/mondrian/projection.ts): the type of the values that
    select which parts of a value of the original type to return. A lazy type is a thunk; a
    thunk the user declared is named and its body is looked up in a registry, and the thunk
    `getProjectionType` builds for a lazy type is `ProjectionOf` the thunk it wraps. */
module Projection {

  datatype ScalarKind = BooleanKind | StringKind | NumberKind | NullKind | EnumeratorKind | CustomKind | LiteralKind

  datatype Thunk = Named(name: string) | ProjectionOf(source: Thunk)

  datatype LazyType =
    | Lazy(thunk: Thunk)
    | Scalar(kind: ScalarKind)
    | Object(fields: seq<(string, LazyType)>, strict: bool)
    | ArrayDecorator(wrapped: LazyType)
    | OptionalDecorator(wrapped: LazyType)
    | DefaultDecorator(wrapped: LazyType)
    | UnionOperator(variants: seq<(string, LazyType)>)

  /** The body of every declared thunk. */
  type Registry = string -> LazyType

  const BooleanType: LazyType := Scalar(BooleanKind)

  /** `lazyToType` on a variant, asked only whether it yields an object. A projection thunk
      never does (see `IsObjectKindResolves`). */
  predicate IsObjectKind(registry: Registry, t: LazyType)
  {
    match t
    case Lazy(Named(name)) => registry(name).Object?
    case Lazy(ProjectionOf(_)) => false
    case Object(_, _) => true
    case _ => false
  }

  /** The shape every projection type has: `boolean()`, a projection thunk, or a union of
      `boolean()` and a strict object whose fields are optional projection types. */
  predicate IsProjectionType(t: LazyType)
  {
    match t
    case Scalar(kind) => kind == BooleanKind
    case Lazy(thunk) => thunk.ProjectionOf?
    case UnionOperator(variants) =>
      && |variants| == 2
      && variants[0].1 == BooleanType
      && variants[1].1.Object? && variants[1].1.strict
      && forall i :: 0 <= i < |variants[1].1.fields| ==>
           variants[1].1.fields[i].1.OptionalDecorator? && IsProjectionType(variants[1].1.fields[i].1.wrapped)
    case _ => false
  }

  /** `getProjectionType`. */
  function Project(registry: Registry, t: LazyType): (r: LazyType)
    ensures IsProjectionType(r)
    ensures !r.Object?
  {
    match t
    case Lazy(thunk) => Lazy(ProjectionOf(thunk))
    case Scalar(_) => BooleanType
    case Object(fields, _) => UnionOperator([("first", BooleanType), ("second", Object(ProjectFields(registry, fields), true))])
    case ArrayDecorator(wrapped) => Project(registry, wrapped)
    case OptionalDecorator(wrapped) => Project(registry, wrapped)
    case DefaultDecorator(wrapped) => Project(registry, wrapped)
    case UnionOperator(variants) =>
      UnionOperator([("all", BooleanType), ("object", Object(ObjectVariants(registry, variants), true))])
  }

  /** Each field of an object, made optional and projected. */
  function ProjectFields(registry: Registry, fields: seq<(string, LazyType)>): (r: seq<(string, LazyType)>)
    ensures |r| == |fields|
    ensures forall i :: 0 <= i < |r| ==> r[i].1.OptionalDecorator? && IsProjectionType(r[i].1.wrapped)
    decreases fields
  {
    seq(|fields|, i requires 0 <= i < |fields| =>
      var (name, fieldType) := fields[i];
      assert fieldType < Object(fields, true);
      (name, OptionalDecorator(Project(registry, fieldType))))
  }

  /** The variants of a union whose type is an object, each made optional and projected; the
      others are dropped (the `flatMap`). */
  function ObjectVariants(registry: Registry, variants: seq<(string, LazyType)>): (r: seq<(string, LazyType)>)
    ensures |r| <= |variants|
    ensures forall i :: 0 <= i < |r| ==> r[i].1.OptionalDecorator? && IsProjectionType(r[i].1.wrapped)
    decreases variants
  {
    if variants == [] then []
    else
      var (name, variantType) := variants[|variants| - 1];
      var init := variants[..|variants| - 1];
      assert variantType < UnionOperator(variants);
      ObjectVariants(registry, init)
        + (if IsObjectKind(registry, variantType) then [(name, OptionalDecorator(Project(registry, variantType)))] else [])
  }

  /** One step of `lazyToType`: a declared thunk yields its body; a projection thunk yields the
      projection of what its source yields. */
  function Resolve(registry: Registry, thunk: Thunk): (r: LazyType)
    ensures thunk.Named? ==> r == registry(thunk.name)
    ensures thunk.ProjectionOf? ==> IsProjectionType(r) && !r.Object?
  {
    match thunk
    case Named(name) => registry(name)
    case ProjectionOf(source) => Project(registry, Resolve(registry, source))
  }

  function LazyToType(registry: Registry, t: LazyType): (r: LazyType)
    ensures !t.Lazy? ==> r == t
    ensures t.Lazy? && t.thunk.ProjectionOf? ==> IsProjectionType(r)
  {
    if t.Lazy? then Resolve(registry, t.thunk) else t
  }

  // ---------------------------------------------------------------------------------------
  // Properties

  /** The kind test `getProjectionType` makes on union variants is the kind of what the
      variant resolves to. */
  lemma IsObjectKindResolves(registry: Registry, t: LazyType)
    ensures IsObjectKind(registry, t) <==> LazyToType(registry, t).Object?
  {
  }

  /** Every scalar kind projects to `boolean()`. */
  lemma ScalarsProjectToBoolean(registry: Registry, kind: ScalarKind)
    ensures Project(registry, Scalar(kind)) == BooleanType
  {
  }

  /** The array, optional and default decorators are transparent to projection. */
  lemma DecoratorsTransparent(registry: Registry, t: LazyType)
    ensures Project(registry, ArrayDecorator(t)) == Project(registry, t)
    ensures Project(registry, OptionalDecorator(t)) == Project(registry, t)
    ensures Project(registry, DefaultDecorator(t)) == Project(registry, t)
  {
  }

  /** An object projects to `union({ first: boolean(), second: <strict object> })` where the
      object has the same field names in the same order, each the optional projection of the
      field's type. */
  lemma ObjectProjection(registry: Registry, fields: seq<(string, LazyType)>, strict: bool)
    ensures var p := Project(registry, Object(fields, strict));
      && p.UnionOperator? && |p.variants| == 2
      && p.variants[0] == ("first", BooleanType)
      && p.variants[1].0 == "second" && p.variants[1].1.Object? && p.variants[1].1.strict
      && |p.variants[1].1.fields| == |fields|
      && forall i :: 0 <= i < |fields| ==>
           p.variants[1].1.fields[i] == (fields[i].0, OptionalDecorator(Project(registry, fields[i].1)))
  {
  }

  /** A union projects to `union({ all: boolean(), object: <strict object> })` whose fields are
      exactly the variants that are objects, each the optional projection of the variant. */
  lemma UnionProjection(registry: Registry, variants: seq<(string, LazyType)>)
    ensures var p := Project(registry, UnionOperator(variants));
      && p.UnionOperator? && |p.variants| == 2
      && p.variants[0] == ("all", BooleanType)
      && p.variants[1].0 == "object" && p.variants[1].1.Object? && p.variants[1].1.strict
      && p.variants[1].1.fields == ObjectVariants(registry, variants)
  {
  }

  /** The object variants kept are exactly the variants that are objects. */
  lemma {:induction false} ObjectVariantsMembers(registry: Registry, variants: seq<(string, LazyType)>)
    ensures forall entry :: entry in ObjectVariants(registry, variants) <==>
      exists i :: 0 <= i < |variants| && IsObjectKind(registry, variants[i].1)
                && entry == (variants[i].0, OptionalDecorator(Project(registry, variants[i].1)))
  {
    if variants != [] {
      var init := variants[..|variants| - 1];
      ObjectVariantsMembers(registry, init);
      assert forall i :: 0 <= i < |init| ==> init[i] == variants[i];
    }
  }

  /** Keeping the object variants distributes over concatenation, so their order is kept. */
  lemma {:induction false} ObjectVariantsAppend(registry: Registry, a: seq<(string, LazyType)>, b: seq<(string, LazyType)>)
    ensures ObjectVariants(registry, a + b) == ObjectVariants(registry, a) + ObjectVariants(registry, b)
    decreases |b|
  {
    if b == [] {
      assert a + b == a;
    } else {
      var init := b[..|b| - 1];
      ObjectVariantsAppend(registry, a, init);
      assert (a + b)[..|a + b| - 1] == a + init;
      assert (a + b)[|a + b| - 1] == b[|b| - 1];
    }
  }

  /** A lazy type projects to a thunk, without looking at what the thunk yields, and forcing
      that thunk yields the projection of what the original thunk yields. */
  lemma LazyProjection(registry: Registry, other: Registry, thunk: Thunk)
    ensures Project(registry, Lazy(thunk)) == Project(other, Lazy(thunk))
    ensures Project(registry, Lazy(thunk)).Lazy?
    ensures LazyToType(registry, Project(registry, Lazy(thunk))) == Project(registry, LazyToType(registry, Lazy(thunk)))
  {
  }

  /** A recursive type: `User = { name: string, friends: User[] }`. */
  const UserFields: seq<(string, LazyType)> := [("name", Scalar(StringKind)), ("friends", ArrayDecorator(Lazy(Named("User"))))]

  /** Projecting the recursive type stops at the thunk, and forcing it unfolds one level. */
  lemma RecursiveProjection(registry: Registry)
    requires registry("User") == Object(UserFields, false)
    ensures Project(registry, Object(UserFields, false)).variants[1].1.fields
         == [("name", OptionalDecorator(BooleanType)), ("friends", OptionalDecorator(Lazy(ProjectionOf(Named("User")))))]
    ensures LazyToType(registry, Lazy(ProjectionOf(Named("User")))) == Project(registry, Object(UserFields, false))
  {
    ObjectProjection(registry, UserFields, false);
  }
}
