/** The type algebra's values and the typed nodes that rules build. */
module Types {
  import opened Common

  /** The closed set of type shapes the core distinguishes.  Only `Tag`
      is given behaviour in this model; the others are the shapes the
      member-access rule and the record rule test for or build. */
  datatype Ty =
    | Untyped                                    // Ty.tUntyped(): not yet resolved
    | Base(name: string)                         // a named base type (Int, String, ...)
    | Var(id: nat)                               // VarTy: an unresolved type variable
    | Data(fields: seq<string>, isParameter: bool) // DataTy; tData().asParameter() is open
    | Record(names: seq<string>)                 // tRecord(names): a DataTy keyed by names
    | Self(fieldTy: Ty, owner: Ty)               // selfTy(fieldTy, owner)
    | Tag(inner: Ty, names: seq<string>)         // TagTy: inner type refined by tags

  /** `recvTy instanceof DataTy`: records are data types too. */
  predicate IsData(t: Ty) {
    t.Data? || t.Record?
  }

  /** The fresh placeholder `Ty.tData().asParameter()`: a data type of
      which nothing is known yet. */
  const Placeholder: Ty := Data([], true)

  /** One binding of a type variable recorded by acceptance (VarLogger),
      kept so that a failed attempt can be rolled back. */
  datatype Unification = Unification(varId: nat, ty: Ty)

  type VarLog = seq<Unification>

  /** A function/operator template (TCodeTemplate): name, return type,
      parameter types and the code text to emit.  A type looked up by
      name may be missing, hence the options. */
  datatype Template = Template(name: string, ret: Option<Ty>, params: seq<Option<Ty>>, code: string)

  /** What a typing rule built.  `TypeCode` is TTypeCode; any other node a
      rule builds is opaque here. */
  datatype CodeBody = TypeCode(ty: Ty) | Built(id: nat)

  /** A node and the source position attached to it, if any. */
  datatype Code = Code(body: CodeBody, pos: Option<nat>)
}
