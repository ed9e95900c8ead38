/** GetCode: the typing of a field access `recv.name`.  The node keeps its
    resolved type in a field that `asType` sets once; the receiver's type,
    the global name hints and the data type's field check come from parts
    of the transpiler outside this model and are passed in. */
module MemberAccess {
  import opened Common
  import opened Types

  /** What `castType(env, t)` is asked to do: convert the node's type to
      the requested one. */
  datatype Cast = Cast(from: Ty, to: Ty)

  /** The type a field access resolves to, or the error it raises, given
      the receiver's type (or the error typing the receiver raised):
      a type variable stands for a fresh open data type; on a data type the
      field name needs a global name hint and must pass the field check,
      and the access then has the self type of the hint's type in that
      data type; any other receiver is refused. */
  function FieldAccess(recv: Result<Ty>, name: string, pos: nat, hint: string -> Option<Ty>,
                       hasField: (Ty, string) -> bool): Result<Ty>
  {
    match recv
    case Err(e) => Err(e)
    case Ok(rt) =>
      var dt := if rt.Var? then Placeholder else rt;
      if IsData(dt) then
        match hint(name)
        case None => Err(Error(UndefinedName, name, Some(pos)))
        case Some(h) =>
          if hasField(dt, name) then Ok(Self(h, dt)) else Err(Error(UndefinedField, name, Some(pos)))
      else Err(Error(UnsupportedOperator, "", Some(pos)))
  }

  /** The unifier's bindings of type variables. */
  class TypeVars {
    var binding: map<nat, Ty>

    constructor ()
      ensures binding == map[]
    {
      binding := map[];
    }

    /** `v.acceptTy(bSUB, infer, bUPDATE)` on a variable: the variable is
        bound to the inferred type. */
    method Bind(v: nat, t: Ty)
      modifies this
      ensures binding == old(binding)[v := t]
    {
      binding := binding[v := t];
    }
  }

  class GetCode {
    /** The field name (`nameTree.getString()`). */
    const name: string
    /** The position of the name in the source. */
    const pos: nat
    /** The node's type; `Untyped` until `asType` resolves it. */
    var ty: Ty

    constructor (name: string, pos: nat)
      ensures this.name == name && this.pos == pos && ty == Untyped
    {
      this.name := name;
      this.pos := pos;
      this.ty := Untyped;
    }

    /** `asType(env, t)`.  An untyped node types its receiver (`recvTy`),
        binds a variable receiver to a fresh open data type, and resolves
        the field; an error leaves the node untyped.  A typed node is only
        cast: nothing is resolved again. */
    method AsType(t: Ty, recvTy: Result<Ty>, hint: string -> Option<Ty>, hasField: (Ty, string) -> bool,
                  vars: TypeVars) returns (r: Result<Cast>)
      modifies this, vars
      ensures old(ty) != Untyped ==> ty == old(ty) && r == Ok(Cast(ty, t))
      ensures old(ty) == Untyped ==>
                match FieldAccess(recvTy, name, pos, hint, hasField)
                case Ok(ft) => ty == ft && r == Ok(Cast(ft, t))
                case Err(e) => ty == Untyped && r == Err(e)
      ensures vars.binding ==
                if old(ty) == Untyped && recvTy.Ok? && recvTy.value.Var?
                then old(vars.binding)[recvTy.value.id := Placeholder]
                else old(vars.binding)
    {
      if ty == Untyped {
        if recvTy.Err? {
          return Err(recvTy.error);
        }
        var rt := recvTy.value;
        if rt.Var? {
          var infer := Placeholder;
          vars.Bind(rt.id, infer);
          rt := infer;
        }
        if IsData(rt) {
          var h := hint(name);
          if h.None? {
            return Err(Error(UndefinedName, name, Some(pos)));
          }
          if !hasField(rt, name) {
            return Err(Error(UndefinedField, name, Some(pos)));
          }
          ty := Self(h.value, rt);
          return Ok(Cast(ty, t));
        }
        return Err(Error(UnsupportedOperator, "", Some(pos)));
      }
      return Ok(Cast(ty, t));
    }
  }

  /** Asking a node for a type twice: after a success, the second request
      re-resolves nothing and casts the type the first one resolved; the
      variable binding is made at most once (a repeated binding after a
      failure binds the same type again). */
  method AsTypeTwice(node: GetCode, t1: Ty, t2: Ty, recvTy: Result<Ty>, hint: string -> Option<Ty>,
                     hasField: (Ty, string) -> bool, vars: TypeVars) returns (r1: Result<Cast>, r2: Result<Cast>)
    modifies node, vars
    ensures r1.Ok? ==> r2 == Ok(Cast(r1.value.from, t2)) && node.ty == r1.value.from
    ensures vars.binding ==
              if old(node.ty) == Untyped && recvTy.Ok? && recvTy.value.Var?
              then old(vars.binding)[recvTy.value.id := Placeholder]
              else old(vars.binding)
  {
    r1 := node.AsType(t1, recvTy, hint, hasField, vars);
    r2 := node.AsType(t2, recvTy, hint, hasField, vars);
  }

  // ------------------------------------------------------------ properties

  /** A type-variable receiver is treated as a data type: it never makes
      the access unsupported, and succeeds exactly when the hint exists and
      the open data type has the field. */
  lemma VarReceiverIsData(v: nat, name: string, pos: nat, hint: string -> Option<Ty>, hasField: (Ty, string) -> bool)
    ensures var r := FieldAccess(Ok(Var(v)), name, pos, hint, hasField);
            (r.Err? ==> r.error.kind != UnsupportedOperator)
            && (r.Ok? <==> hint(name).Some? && hasField(Placeholder, name))
            && (r.Ok? ==> r.value == Self(hint(name).value, Placeholder))
  {
  }

  /** A data receiver and a field name without a global name hint: the
      access is an undefined name, reported at the name. */
  lemma DataWithoutHint(rt: Ty, name: string, pos: nat, hint: string -> Option<Ty>, hasField: (Ty, string) -> bool)
    requires IsData(rt) && hint(name).None?
    ensures FieldAccess(Ok(rt), name, pos, hint, hasField) == Err(Error(UndefinedName, name, Some(pos)))
  {
  }

  /** A data receiver with a hint for the name and the field: the access
      has the self type of the hint's type in the receiver's data type. */
  lemma DataWithHint(rt: Ty, name: string, pos: nat, hint: string -> Option<Ty>, hasField: (Ty, string) -> bool)
    requires IsData(rt) && hint(name).Some? && hasField(rt, name)
    ensures FieldAccess(Ok(rt), name, pos, hint, hasField) == Ok(Self(hint(name).value, rt))
  {
  }

  /** Exactly the receivers that are neither variables nor data types are
      refused as an unsupported operator. */
  lemma UnsupportedIffNotData(rt: Ty, name: string, pos: nat, hint: string -> Option<Ty>, hasField: (Ty, string) -> bool)
    ensures var r := FieldAccess(Ok(rt), name, pos, hint, hasField);
            (r.Err? && r.error.kind == UnsupportedOperator) <==> !rt.Var? && !IsData(rt)
  {
  }

  /** Every error names its cause at the access's position, and a
      successful access always has a self type. */
  lemma AccessOutcome(rt: Ty, name: string, pos: nat, hint: string -> Option<Ty>, hasField: (Ty, string) -> bool)
    ensures var r := FieldAccess(Ok(rt), name, pos, hint, hasField);
            (r.Err? ==> r.error.pos == Some(pos))
            && (r.Ok? ==> r.value.Self? && IsData(r.value.owner) && Some(r.value.fieldTy) == hint(name))
  {
  }
}
