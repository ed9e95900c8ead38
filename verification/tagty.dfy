/** TagTy: a type refined by a list of tag names.  Every query on a tag
    type is answered by its inner type; the behaviour of the non-tag
    "core" type at the bottom of a stack of tags is passed in as a
    function, because those classes are not part of this model. */
module TagTy {
  import opened Types

  /** The innermost non-tag type under any number of tag layers. */
  function Core(t: Ty): Ty {
    if t.Tag? then Core(t.inner) else t
  }

  /** The tag lists of the layers, outermost first. */
  function Layers(t: Ty): seq<seq<string>> {
    if t.Tag? then [t.names] + Layers(t.inner) else []
  }

  /** `t` with its core replaced by `c`, keeping every tag layer. */
  function Rewrap(t: Ty, c: Ty): Ty {
    if t.Tag? then Tag(Rewrap(t.inner, c), t.names) else c
  }

  lemma {:induction false} RewrapIdentity(t: Ty, c: Ty)
    ensures Rewrap(t, c) == t <==> c == Core(t)
  {
    if t.Tag? {
      RewrapIdentity(t.inner, c);
    }
  }

  // ---------------------------------------------------------------- matchTags

  /** TagTy.matchTags: an index loop with early exit.  The `sub` flag plays
      no part in the comparison. */
  method MatchTags(sub: bool, mine: seq<string>, names: seq<string>) returns (r: bool)
    ensures r <==> mine == names
  {
    if |mine| != |names| {
      return false;
    }
    var i := 0;
    while i < |names|
      invariant 0 <= i <= |names|
      invariant mine[..i] == names[..i]
    {
      if mine[i] != names[i] {
        return false;
      }
      i := i + 1;
    }
    assert mine == mine[..i] && names == names[..i];
    return true;
  }

  // ---------------------------------------------------------------- joins

  function Elems(s: seq<string>): set<string> {
    set x | x in s
  }

  predicate NoDup(s: seq<string>) {
    forall i, j :: 0 <= i < j < |s| ==> s[i] != s[j]
  }

  /** Adding the strings of `xs`, in order, to an insertion-ordered set
      `acc` (the HashSet built by repeated `add`). */
  function AddAll(acc: seq<string>, xs: seq<string>): (r: seq<string>)
    ensures Elems(r) == Elems(acc) + Elems(xs)
    ensures NoDup(acc) ==> NoDup(r)
    decreases |xs|
  {
    if xs == [] then acc
    else
      var acc' := if xs[0] in acc then acc else acc + [xs[0]];
      assert Elems(acc') == Elems(acc) + {xs[0]};
      assert Elems(xs) == {xs[0]} + Elems(xs[1..]);
      AddAll(acc', xs[1..])
  }

  /** TagTy.joins: the join of two tag lists. */
  function Joins(ns: seq<string>, names: seq<string>): (r: seq<string>)
    // the result always holds exactly the tags of both lists
    ensures Elems(r) == Elems(ns) + Elems(names)
    // a singleton already present leaves `names` as it is
    ensures |ns| == 1 && ns[0] in names ==> r == names
    // a singleton not present adds exactly one tag
    ensures |ns| == 1 && ns[0] !in names ==> |r| == |names| + 1 && Elems(r) == Elems(names) + {ns[0]}
    // lists without duplicates give a list without duplicates
    ensures NoDup(ns) && NoDup(names) ==> NoDup(r)
    // the general case removes duplicates whatever its inputs
    ensures |ns| != 1 && |names| != 1 ==> NoDup(r)
    decreases if |ns| == 1 then 0 else 1
  {
    if |ns| == 1 then
      if ns[0] in names then names
      else
        assert Elems(ns) == {ns[0]};
        assert Elems([ns[0]] + names) == {ns[0]} + Elems(names);
        [ns[0]] + names
    else if |names| == 1 then Joins(names, ns)
    else
      assert NoDup([]);
      AddAll(AddAll([], ns), names)
  }

  lemma JoinsSwap(ns: seq<string>, names: seq<string>)
    requires |ns| != 1 && |names| == 1
    ensures Joins(ns, names) == Joins(names, ns)
  {
  }

  lemma {:induction false} JoinsCommuteAsSets(ns: seq<string>, names: seq<string>)
    ensures Elems(Joins(ns, names)) == Elems(Joins(names, ns))
  {
  }

  // ---------------------------------------------------------------- hasVar / isMutable

  /** TagTy.hasVar: asks the inner type. */
  function HasVar(t: Ty, coreHasVar: Ty -> bool): (r: bool)
    ensures r == coreHasVar(Core(t))
  {
    if t.Tag? then HasVar(t.inner, coreHasVar) else coreHasVar(t)
  }

  /** TagTy.isMutable: asks the inner type. */
  function IsMutable(t: Ty, coreIsMutable: Ty -> bool): (r: bool)
    ensures r == coreIsMutable(Core(t))
  {
    if t.Tag? then IsMutable(t.inner, coreIsMutable) else coreIsMutable(t)
  }

  // ---------------------------------------------------------------- dupVar / finalTy

  /** TagTy.dupVar: renames the variables of the inner type and rebuilds the
      tag type only when the inner type changed. */
  function DupVar(t: Ty, coreDupVar: Ty -> Ty): (r: Ty)
    ensures r == Rewrap(t, coreDupVar(Core(t)))
    ensures r == t <==> coreDupVar(Core(t)) == Core(t)
  {
    if t.Tag? then
      var inner := DupVar(t.inner, coreDupVar);
      RewrapIdentity(t.inner, coreDupVar(Core(t.inner)));
      if inner != t.inner then Tag(inner, t.names) else t
    else coreDupVar(t)
  }

  /** TagTy.finalTy: resolves the inner type and rebuilds the tag type only
      when the inner type changed. */
  function FinalTy(t: Ty, coreFinalTy: Ty -> Ty): (r: Ty)
    ensures r == Rewrap(t, coreFinalTy(Core(t)))
    ensures r == t <==> coreFinalTy(Core(t)) == Core(t)
  {
    if t.Tag? then
      var inner := FinalTy(t.inner, coreFinalTy);
      RewrapIdentity(t.inner, coreFinalTy(Core(t.inner)));
      if inner != t.inner then Tag(inner, t.names) else t
    else coreFinalTy(t)
  }

  // ---------------------------------------------------------------- acceptTy

  /** TagTy.acceptTy, threading the log of variable bindings through:
      a tag type accepts another tag type when the inner types accept and
      the tag lists match exactly; in every other case it falls back to
      variable acceptance (`acceptVarTy`), with the log as the inner check
      left it.  A non-tag type answers with `coreAccept`. */
  function Accept(sub: bool, self: Ty, code: Ty, logs: VarLog,
                     coreAccept: (bool, Ty, Ty, VarLog) -> (bool, VarLog),
                     acceptVar: (bool, Ty, Ty, VarLog) -> (bool, VarLog)): (r: (bool, VarLog))
    // a non-tag expected type is answered by its own check
    ensures !self.Tag? ==> r == coreAccept(sub, self, code, logs)
    // a tag type facing a non-tag type only has the variable fallback
    ensures self.Tag? && !code.Tag? ==> r == acceptVar(sub, self, code, logs)
    // two tag types with different tag lists are accepted only by the
    // variable fallback, under some log the inner check produced
    ensures self.Tag? && code.Tag? && self.names != code.names && r.0 ==>
              exists l :: r == acceptVar(sub, self, code, l)
  {
    if self.Tag? then
      if code.Tag? then
        var (ok, logs') := Accept(sub, self.inner, code.inner, logs, coreAccept, acceptVar);
        // the tag lists are compared by `matchTags`, proved equality by MatchTags
        if ok then (self.names == code.names, logs')
        else acceptVar(sub, self, code, logs')
      else acceptVar(sub, self, code, logs)
    else coreAccept(sub, self, code, logs)
  }

  lemma AcceptTagPath(sub: bool, self: Ty, code: Ty, logs: VarLog,
                         coreAccept: (bool, Ty, Ty, VarLog) -> (bool, VarLog),
                         acceptVar: (bool, Ty, Ty, VarLog) -> (bool, VarLog))
    requires self.Tag?
    ensures !code.Tag? ==> Accept(sub, self, code, logs, coreAccept, acceptVar) == acceptVar(sub, self, code, logs)
    ensures code.Tag? && Accept(sub, self.inner, code.inner, logs, coreAccept, acceptVar).0 ==>
              Accept(sub, self, code, logs, coreAccept, acceptVar).0 == (self.names == code.names)
    // inner types that do not accept: variable acceptance, with the log the
    // inner check left
    ensures code.Tag? && !Accept(sub, self.inner, code.inner, logs, coreAccept, acceptVar).0 ==>
              Accept(sub, self, code, logs, coreAccept, acceptVar) ==
              acceptVar(sub, self, code, Accept(sub, self.inner, code.inner, logs, coreAccept, acceptVar).1)
  {
  }

  /** Without a variable fallback, acceptance of tag types needs the tag
      lists of the expected type, layer by layer, to be those of the
      actual type. */
  lemma {:induction false} AcceptNeedsSameLayers(sub: bool, self: Ty, code: Ty, logs: VarLog,
                                                   coreAccept: (bool, Ty, Ty, VarLog) -> (bool, VarLog),
                                                   acceptVar: (bool, Ty, Ty, VarLog) -> (bool, VarLog))
    requires forall s: bool, a: Ty, b: Ty, l: VarLog :: !acceptVar(s, a, b, l).0
    ensures Accept(sub, self, code, logs, coreAccept, acceptVar).0 ==>
              Layers(self) <= Layers(code)
  {
    if self.Tag? && code.Tag? {
      AcceptNeedsSameLayers(sub, self.inner, code.inner, logs, coreAccept, acceptVar);
      var innerResult := Accept(sub, self.inner, code.inner, logs, coreAccept, acceptVar);
      if !innerResult.0 {
        assert !acceptVar(sub, self, code, innerResult.1).0;
      }
      if Accept(sub, self, code, logs, coreAccept, acceptVar).0 {
        assert innerResult.0 && self.names == code.names;
        var rest := Layers(self.inner);
        assert rest <= Layers(code.inner);
        assert Layers(self) == [self.names] + rest;
        assert Layers(code) == [self.names] + Layers(code.inner);
      }
    }
  }

  /** Identical tag layers and accepting cores make the tag types accept,
      with the log the core check produced. */
  lemma {:induction false} SameLayersAccept(sub: bool, self: Ty, code: Ty, logs: VarLog,
                                              coreAccept: (bool, Ty, Ty, VarLog) -> (bool, VarLog),
                                              acceptVar: (bool, Ty, Ty, VarLog) -> (bool, VarLog))
    requires Layers(self) == Layers(code)
    requires coreAccept(sub, Core(self), Core(code), logs).0
    ensures Accept(sub, self, code, logs, coreAccept, acceptVar) == coreAccept(sub, Core(self), Core(code), logs)
  {
    if self.Tag? {
      assert code.Tag?;
      assert Layers(self.inner) == Layers(self)[1..] == Layers(code)[1..] == Layers(code.inner);
      assert self.names == Layers(self)[0] == Layers(code)[0] == code.names;
      SameLayersAccept(sub, self.inner, code.inner, logs, coreAccept, acceptVar);
    } else {
      assert !code.Tag?;
    }
  }

  /** A tag list is not accepted for a longer one holding it: matching is
      exact, not by containment. */
  lemma SubsetTagsRejected(sub: bool, inner: Ty, logs: VarLog,
                              coreAccept: (bool, Ty, Ty, VarLog) -> (bool, VarLog),
                              acceptVar: (bool, Ty, Ty, VarLog) -> (bool, VarLog))
    requires !inner.Tag? && coreAccept(sub, inner, inner, logs).0
    ensures !Accept(sub, Tag(inner, ["a"]), Tag(inner, ["a", "b"]), logs, coreAccept, acceptVar).0
  {
  }
}
