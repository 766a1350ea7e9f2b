/** Values, factories and binding records of the di.js container. */
module Values {

  /** A JavaScript value as the container sees it. `Obj(id)` is an object
      identified by its allocation number, so that `{}` twice gives two
      different values and the same object is recognisably the same. */
  datatype Value = Undefined | Int(i: int) | Obj(id: nat)

  /** A factory function. `Constant` is the closure that `toConstant`
      builds; `NewObject` is `function () { return {}; }`, which allocates a
      fresh object on every call; `Compute` is any other deterministic
      factory, applied to its arguments positionally. */
  datatype Factory =
    | Constant(value: Value)
    | NewObject
    | Compute(fn: seq<Value> -> Value)

  /** What one factory call produces: its value and the next free object id. */
  datatype Made = Made(value: Value, objects: nat)

  /** `factory.apply(null, args)`; `objects` is the next free allocation number. */
  function Invoke(f: Factory, args: seq<Value>, objects: nat): (m: Made)
    ensures m.objects >= objects
    ensures f.NewObject? ==> m.value == Obj(objects) && m.objects == objects + 1
    ensures f.Constant? ==> m.value == f.value && m.objects == objects
  {
    match f
    case Constant(v) => Made(v, objects)
    case NewObject => Made(Obj(objects), objects + 1)
    case Compute(fn) => Made(fn(args), objects)
  }

  /** One element of the array given to `to`: a dependency name or a function. */
  datatype Element = Key(name: string) | Function(factory: Factory)

  /** The argument of `to`: either not an array at all, or an array. */
  datatype Spec = NotAnArray | Items(elements: seq<Element>)

  /** The two exceptions `to` throws. */
  datatype SpecError = InvalidSpecification | FactoryNotLast

  /** A validated specification: dependency names and the trailing factory. */
  datatype Parsed = Parsed(dependencies: seq<string>, factory: Factory)

  datatype Result<T> = Ok(value: T) | Err(error: SpecError)

  /** Index of a binding record in the container's record table; it stands
      for the one JavaScript object that all aliases of a binding share. */
  type Handle = nat

  /** A binding record: its current aliases (the `names` lookup object), its
      dependency names in declaration order, its factory and its scope
      (`true` when `scope` is the container's singleton cache, `false` for
      `null`). */
  datatype Binding = Binding(names: set<string>, dependencies: seq<string>, factory: Factory, singleton: bool)
}
