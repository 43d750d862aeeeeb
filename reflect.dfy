/** Optional values, standing for Go's nil-able interfaces (`error`). */
module Wrappers {
  datatype Option<+T> = None | Some(value: T)
}

/**
 * The part of Go's reflection that the service manager relies on, reduced to
 * plain values.  An instance is identified by value (as `reflect.Value`
 * comparison identifies the pointer it wraps); it carries its dynamic type
 * name (what `%T` prints), the interface types it implements, and the shape
 * of its optional `Start` and `Close` methods, which is all that
 * `MethodByName`, `Type().NumIn()`, `In(i)`, `Out(i)`, `Call`'s argument
 * check and the `io.Closer` type assertion ever look at.
 */
module Reflect {
  import opened Wrappers

  /** An interface type: the key services are registered and looked up by. */
  datatype Iface = Iface(name: string)

  /** The reflected type of a parameter or result: an interface type or not. */
  datatype Type = Interface(iface: Iface) | Concrete(name: string)

  /** `context.Context` and `error` are themselves interface types. */
  const ContextType: Type := Interface(Iface("context.Context"))
  const ErrorType: Type := Interface(Iface("error"))

  /** The parameter and result types of a method value (receiver excluded). */
  datatype Signature = Signature(ins: seq<Type>, outs: seq<Type>)

  /** Which of the optional lifecycle methods an instance has, and their types. */
  datatype Shape = Shape(start: Option<Signature>, close: Option<Signature>)

  /**
   * A service instance: identity, dynamic type name, the interface types
   * its dynamic type implements, and method shapes.
   */
  datatype Inst = Inst(id: nat, typeName: string, ifaces: set<Iface>, shape: Shape)

  /** Go's assignability of an instance to a parameter type: an interface it implements, or its own type. */
  predicate AssignableTo(v: Inst, t: Type)
  {
    match t
    case Interface(i) => i in v.ifaces
    case Concrete(name) => name == v.typeName
  }

  /** The only `Close` signature that satisfies `io.Closer`: `func() error`. */
  predicate IsCloserSignature(sig: Signature)
  {
    sig.ins == [] && sig.outs == [ErrorType]
  }

  /** Number of parameters of `Start`, what `st.Type().NumIn()` returns. */
  function NumIn(sig: Signature): nat
  {
    |sig.ins|
  }
}
