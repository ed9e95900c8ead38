/** DataType: the typing rule for a record type written as a list of field
    names.  Every name must have a name hint; the rule builds the record
    type of the names, in order. */
module RecordRule {
  import opened Common
  import opened Types

  /** The index of the first child whose string has no name hint. */
  function FirstUnknown(children: seq<Tree>, hint: string -> Option<Ty>): (r: Option<nat>)
    ensures r.None? <==> forall i :: 0 <= i < |children| ==> hint(children[i].text).Some?
    ensures r.Some? ==> r.value < |children| && hint(children[r.value].text).None?
    ensures r.Some? ==> forall i :: 0 <= i < r.value ==> hint(children[i].text).Some?
  {
    if children == [] then None
    else if hint(children[0].text).None? then Some(0)
    else match FirstUnknown(children[1..], hint)
      case None => None
      case Some(j) => Some(j + 1)
  }

  /** `apply(env, t)`: the names of the children are copied into an array,
      in order, each checked for a name hint first; the first name without
      one is an undefined name, reported at that child.  Nothing is added
      to the environment: the rule only reads the hints. */
  method Apply(t: Tree, hint: string -> Option<Ty>) returns (r: Result<Code>)
    ensures match FirstUnknown(t.children, hint)
      case None => r == Ok(Code(TypeCode(Record(ChildTexts(t))), None))
      case Some(i) => r == Err(Error(UndefinedName, t.children[i].text, Some(t.children[i].pos)))
    // a record is built only when every name is hinted, and it then has one
    // name per child, each the child's string, in child order
    ensures r.Ok? <==> forall i :: 0 <= i < |t.children| ==> hint(t.children[i].text).Some?
    ensures r.Ok? ==> r.value.body.TypeCode? && r.value.body.ty.Record?
                      && |r.value.body.ty.names| == |t.children|
                      && forall i :: 0 <= i < |t.children| ==>
                           r.value.body.ty.names[i] == t.children[i].text && hint(r.value.body.ty.names[i]).Some?
  {
    var names := new string[|t.children|];
    var c := 0;
    while c < |t.children|
      invariant 0 <= c <= |t.children|
      invariant forall m :: 0 <= m < c ==> names[m] == t.children[m].text && hint(names[m]).Some?
    {
      var sub := t.children[c];
      var name := sub.text;
      if hint(name).None? {
        return Err(Error(UndefinedName, name, Some(sub.pos)));
      }
      names[c] := name;
      c := c + 1;
    }
    assert names[..] == ChildTexts(t);
    return Ok(Code(TypeCode(Record(names[..])), None));
  }
}
