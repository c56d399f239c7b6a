/** The unified type representation shared by all source languages. */
module Types {
  datatype TypeKind =
    | Invalid | Void | Bool | Int | Float | String | Pointer | Function | Reference | Class | Module
    | Any | Unknown | Struct | Union | Enum | Tuple | GenericParam | GenericInstance | Array | Optional | Slice

  datatype Type = Type(
    kind: TypeKind,
    name: string,
    language: string,
    args: seq<Type>,
    lifetime: string,
    isConst: bool,
    isVolatile: bool,
    isRvalueRef: bool,
    bitWidth: int,
    isSigned: bool,
    arraySize: nat
  )

  function Plain(kind: TypeKind, name: string, args: seq<Type>): Type {
    Type(kind, name, "", args, "", false, false, false, 0, true, 0)
  }
}
