/** A small stand-in for the part of Go's `reflect` package the registry
    inspects: types that are either pointers or named types, the methods a
    receiver's type offers, and the receiver value itself. */
module Reflection {

  /** A Go type as far as the registry looks at it. `Ptr(elem)` is `*elem`;
      `Named(name, pkgPath)` is any other type, with the results of
      `Type.Name()` and `Type.PkgPath()`. Unnamed non-pointer types such as
      slices are `Named("", "")`, as reflect reports them. */
  datatype Type =
    | Ptr(elem: Type)
    | Named(name: string, pkgPath: string)

  /** `reflect.TypeOf(http.Request{})`: the type the first argument points to. */
  const RequestType: Type := Named("Request", "net/http")

  /** `reflect.TypeOf((*error)(nil)).Elem()`: the predeclared `error` type. */
  const ErrorType: Type := Named("error", "")

  /** `Type.Name()`: pointer types have no name. */
  function TypeName(t: Type): string {
    match t
    case Ptr(_) => ""
    case Named(n, _) => n
  }

  /** `Type.PkgPath()`: pointer types have no package path. */
  function PkgPath(t: Type): string {
    match t
    case Ptr(_) => ""
    case Named(_, p) => p
  }

  /** `reflect.Method`: the method's name, its package path (empty exactly when
      the method is exported), and the types of its inputs and outputs.
      `ins[0]` is the receiver, as in `reflect.Method.Type`, a method
      expression's type. */
  datatype Method = Method(name: string, pkgPath: string, ins: seq<Type>, outs: seq<Type>)

  /** An opaque receiver handed to the registry: an identity (`handle`), its
      dynamic type (`reflect.TypeOf`) and the methods that type's method set
      enumerates (`NumMethod` / `Method(i)`), in order. For a concrete type
      Go enumerates only the exported methods, sorted by name, so their names
      are distinct and their package paths empty. The model allows any
      sequence, and the registry keeps its export check on `pkgPath` as
      written, although Go never lets a method fail it. */
  datatype Receiver = Receiver(handle: nat, rtype: Type, methodSet: seq<Method>)

  /** `reflect.Indirect(reflect.ValueOf(r)).Type().Name()`: the name of the
      receiver's type after following one pointer, if it is one. */
  function IndirectTypeName(t: Type): string {
    match t
    case Ptr(e) => TypeName(e)
    case Named(n, _) => n
  }
}
