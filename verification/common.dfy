/** Values shared by every part of the semantic-analysis core: optional
    values, the error codes the transpiler raises, and the parse trees it
    receives from the PEG engine. */
module Common {

  datatype Option<+T> = None | Some(value: T)

  /** The kinds of `TErrorCode` / `ErrorCode` the core raises. */
  datatype ErrorKind =
    | UndefinedName        // TFmt.undefined_name__YY0
    | UndefinedField       // raised by DataTy.checkGetField
    | UndefinedSyntax      // OFmt.undefined_syntax__YY0
    | UndefinedCallee      // "undefined %s %s" in findParamCode
    | Mismatched           // "mismatched %s(%s)" in findParamCode
    | UnsupportedOperator  // TFmt.unsupported_operator
    | IndexOutOfBounds     // Java's ArrayIndexOutOfBoundsException

  /** An error: its kind, the name it is about, and the source position
      attached to it, if any. */
  datatype Error = Error(kind: ErrorKind, subject: string, pos: Option<nat>)

  datatype Result<+T> = Ok(value: T) | Err(error: Error)

  /** A parse-tree node as the PEG engine hands it over: a tag, the leaf
      string (`getString()`), a source position and the children. */
  datatype Tree = Tree(tag: string, text: string, pos: nat, children: seq<Tree>)

  /** The strings of the children of a tree, in order. */
  function ChildTexts(t: Tree): (r: seq<string>)
    ensures |r| == |t.children|
    ensures forall i :: 0 <= i < |r| ==> r[i] == t.children[i].text
  {
    seq(|t.children|, i requires 0 <= i < |t.children| => t.children[i].text)
  }
}
