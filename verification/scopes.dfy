/** The environment as values: what a chain of scopes holds and what each
    lookup of TEnv answers over it.  The class in module Environment is
    proved against these functions. */
module Scopes {
  import opened Common
  import opened Types

  /** The classes a binding's value can belong to; `getHandled(c)` answers
      a value only when it is of the requested class. */
  datatype Kind = TypeKind | TemplateKind | RuleKind | OtherKind

  /** A bound value: a type, a template, a typing rule (by identity) or
      any other object (name hints, constants, ...). */
  datatype Payload =
    | TypeP(ty: Ty)
    | TemplateP(tmpl: Template)
    | RuleP(rule: nat)
    | OtherP(id: nat)

  function KindOf(p: Payload): Kind {
    match p
    case TypeP(_) => TypeKind
    case TemplateP(_) => TemplateKind
    case RuleP(_) => RuleKind
    case OtherP(_) => OtherKind
  }

  /** The shadow stack of one name in one scope, newest binding first
      (the `onstack` links of TEnvEntry). */
  type Stack = seq<Payload>

  /** One TEnv's `definedMap`. */
  type Scope = map<string, Stack>

  /** `getEntry(name)`: no binding at all reads as the empty stack. */
  function StackOf(s: Scope, name: string): Stack {
    if name in s then s[name] else []
  }

  /** `addEntry(name, e)`: `e` becomes the head and links to the old head. */
  function Push(s: Scope, name: string, e: Payload): (r: Scope)
    ensures StackOf(r, name) == [e] + StackOf(s, name)
    ensures StackOf(r, name)[1..] == StackOf(s, name)
    ensures forall other :: other != name ==> StackOf(r, other) == StackOf(s, other)
  {
    s[name := [e] + StackOf(s, name)]
  }

  // ------------------------------------------------------------ local lookup

  /** Index of the newest binding of kind `k` in a stack. */
  function IndexOfKind(st: Stack, k: Kind): (r: Option<nat>)
    ensures r.Some? ==> r.value < |st| && KindOf(st[r.value]) == k
    ensures r.Some? ==> forall m :: 0 <= m < r.value ==> KindOf(st[m]) != k
    ensures r.None? ==> forall m :: 0 <= m < |st| ==> KindOf(st[m]) != k
  {
    if st == [] then None
    else if KindOf(st[0]) == k then Some(0)
    else match IndexOfKind(st[1..], k)
      case None => None
      case Some(j) => Some(j + 1)
  }

  /** `getLocal(name, c, f)`: the matcher applied to the newest binding of
      the kind in this scope alone; no binding of the kind gives None.  A
      matcher answering None stands for one answering null. */
  function LocalGet<Y>(s: Scope, name: string, k: Kind, f: Payload -> Option<Y>): Option<Y> {
    var st := StackOf(s, name);
    match IndexOfKind(st, k)
    case None => None
    case Some(j) => f(st[j])
  }

  /** `get(name, c, f)`: the first non-null local answer, walking from the
      nearest scope outward. */
  function ChainGet<Y>(scopes: seq<Scope>, name: string, k: Kind, f: Payload -> Option<Y>): Option<Y> {
    if scopes == [] then None
    else
      var y := LocalGet(scopes[0], name, k, f);
      if y.Some? then y else ChainGet(scopes[1..], name, k, f)
  }

  /** The identity matcher `(d, c) -> d`. */
  function Just(p: Payload): Option<Payload> {
    Some(p)
  }

  // ------------------------------------------------------------ aggregate lookups

  /** Every binding of `name` visible along the chain, in scan order:
      nearest scope first, and newest first inside a scope. */
  function Visible(scopes: seq<Scope>, name: string): Stack {
    if scopes == [] then [] else StackOf(scopes[0], name) + Visible(scopes[1..], name)
  }

  /** `findList` as it runs: `acc` extended with each binding of kind `k`
      that `p` accepts, in scan order. */
  function Gather(k: Kind, p: Payload -> bool, acc: Stack, xs: Stack): Stack
    decreases |xs|
  {
    if xs == [] then acc
    else if KindOf(xs[0]) == k && p(xs[0]) then Gather(k, p, acc + [xs[0]], xs[1..])
    else Gather(k, p, acc, xs[1..])
  }

  /** One binding scanned by `find`'s inner loop, from position `j`. */
  lemma FoldKindStep<Y>(k: Kind, f: Payload -> Y, g: (Y, Y) -> Y, y: Y, st: Stack, j: nat, rest: Stack)
    requires j < |st|
    ensures FoldKind(k, f, g, y, st[j..] + rest) ==
            FoldKind(k, f, g, if KindOf(st[j]) == k then g(y, f(st[j])) else y, st[j + 1..] + rest)
  {
    assert (st[j..] + rest)[1..] == st[j + 1..] + rest;
  }

  /** One binding scanned by the early-stop `find`, when it does not stop. */
  lemma FoldUntilStep<Y>(k: Kind, f: Payload -> Y, g: (Y, Y) -> Y, h: Y -> bool, y: Y, st: Stack, j: nat, rest: Stack)
    requires j < |st|
    ensures KindOf(st[j]) == k && h(g(y, f(st[j]))) ==>
              FoldUntil(k, f, g, h, y, st[j..] + rest) == g(y, f(st[j]))
    ensures !(KindOf(st[j]) == k && h(g(y, f(st[j])))) ==>
              FoldUntil(k, f, g, h, y, st[j..] + rest) ==
              FoldUntil(k, f, g, h, if KindOf(st[j]) == k then g(y, f(st[j])) else y, st[j + 1..] + rest)
  {
    assert (st[j..] + rest)[1..] == st[j + 1..] + rest;
  }

  /** One binding scanned by `findList`'s inner loop. */
  lemma GatherStep(k: Kind, p: Payload -> bool, acc: Stack, st: Stack, j: nat, rest: Stack)
    requires j < |st|
    ensures Gather(k, p, acc, st[j..] + rest) ==
            Gather(k, p, if KindOf(st[j]) == k && p(st[j]) then acc + [st[j]] else acc, st[j + 1..] + rest)
  {
    assert (st[j..] + rest)[1..] == st[j + 1..] + rest;
  }

  /** `findList`'s additions: the bindings of kind `k` that `p` accepts, in
      scan order. */
  function Collect(k: Kind, p: Payload -> bool, xs: Stack): (r: Stack)
    ensures |r| <= |xs|
  {
    if xs == [] then []
    else (if KindOf(xs[0]) == k && p(xs[0]) then [xs[0]] else []) + Collect(k, p, xs[1..])
  }

  /** Running `findList` appends exactly the matching bindings to the
      list it was given. */
  lemma {:induction false} GatherAppends(k: Kind, p: Payload -> bool, acc: Stack, xs: Stack)
    ensures Gather(k, p, acc, xs) == acc + Collect(k, p, xs)
    decreases |xs|
  {
    if xs != [] {
      GatherAppends(k, p, if KindOf(xs[0]) == k && p(xs[0]) then acc + [xs[0]] else acc, xs[1..]);
      if KindOf(xs[0]) == k && p(xs[0]) {
        assert acc + [xs[0]] + Collect(k, p, xs[1..]) == acc + ([xs[0]] + Collect(k, p, xs[1..]));
      }
    }
  }

  /** `findList` adds only bindings it saw, of the requested kind, that the
      predicate accepts, and it adds every one of them. */
  lemma {:induction false} CollectExactly(k: Kind, p: Payload -> bool, xs: Stack, x: Payload)
    ensures x in Collect(k, p, xs) <==> x in xs && KindOf(x) == k && p(x)
  {
    if xs != [] {
      CollectExactly(k, p, xs[1..], x);
      assert xs == [xs[0]] + xs[1..];
    }
  }

  /** The predicate that accepts every binding. */
  function Always(p: Payload): bool {
    true
  }

  /** `find` without a breaker: `y := g(y, f(x))` for every binding `x` of
      kind `k`, in scan order, starting from `y`. */
  function FoldKind<Y>(k: Kind, f: Payload -> Y, g: (Y, Y) -> Y, y: Y, xs: Stack): Y
    decreases |xs|
  {
    if xs == [] then y
    else if KindOf(xs[0]) == k then FoldKind(k, f, g, g(y, f(xs[0])), xs[1..])
    else FoldKind(k, f, g, y, xs[1..])
  }

  /** `find` with a breaker: as FoldKind, but the first accumulated value
      that `h` accepts is the answer. */
  function FoldUntil<Y>(k: Kind, f: Payload -> Y, g: (Y, Y) -> Y, h: Y -> bool, y: Y, xs: Stack): Y
    decreases |xs|
  {
    if xs == [] then y
    else if KindOf(xs[0]) == k then
      var y' := g(y, f(xs[0]));
      if h(y') then y' else FoldUntil(k, f, g, h, y', xs[1..])
    else FoldUntil(k, f, g, h, y, xs[1..])
  }

  // ------------------------------------------------------------ set

  /** `set(name, c, v)` on one scope: overwrite the newest binding of the
      kind, or push a new binding when there is none. */
  function SetLocal(s: Scope, name: string, k: Kind, v: Payload): Scope {
    var st := StackOf(s, name);
    match IndexOfKind(st, k)
    case Some(j) => s[name := st[j := v]]
    case None => Push(s, name, v)
  }

  // ------------------------------------------------------------ lemmas

  lemma {:induction false} CollectAppend(k: Kind, p: Payload -> bool, a: Stack, b: Stack)
    ensures Collect(k, p, a + b) == Collect(k, p, a) + Collect(k, p, b)
  {
    if a == [] {
      assert a + b == b;
    } else {
      assert (a + b)[1..] == a[1..] + b;
      CollectAppend(k, p, a[1..], b);
    }
  }

  /** The head of the matching bindings of a stack is its newest binding of
      the kind. */
  lemma {:induction false} CollectHead(k: Kind, st: Stack)
    ensures IndexOfKind(st, k).None? <==> Collect(k, Always, st) == []
    ensures IndexOfKind(st, k).Some? ==> Collect(k, Always, st)[0] == st[IndexOfKind(st, k).value]
  {
    if st != [] && KindOf(st[0]) != k {
      CollectHead(k, st[1..]);
    }
  }

  /** `get` with the identity matcher answers the first of all the
      bindings `findList` would see: the nearest declaration wins. */
  lemma {:induction false} GetIsFirstMatch(scopes: seq<Scope>, name: string, k: Kind)
    ensures var all := Collect(k, Always, Visible(scopes, name));
            ChainGet(scopes, name, k, Just) == if all == [] then None else Some(all[0])
  {
    if scopes != [] {
      var st := StackOf(scopes[0], name);
      CollectAppend(k, Always, st, Visible(scopes[1..], name));
      CollectHead(k, st);
      GetIsFirstMatch(scopes[1..], name, k);
    }
  }

  /** What `get` finds, `findList` with a predicate accepting it finds too,
      so `findList` never finds less than `get`. */
  lemma GetFoundByFindList(scopes: seq<Scope>, name: string, k: Kind, p: Payload -> bool, x: Payload)
    requires ChainGet(scopes, name, k, Just) == Some(x) && p(x)
    ensures x in Collect(k, p, Visible(scopes, name))
    ensures |Collect(k, Always, Visible(scopes, name))| >= 1
  {
    GetIsFirstMatch(scopes, name, k);
    CollectExactly(k, Always, Visible(scopes, name), x);
    CollectExactly(k, p, Visible(scopes, name), x);
  }

  /** A binding in the nearest scope hides every outer one. */
  lemma NearestWins<Y>(m: Scope, parents: seq<Scope>, name: string, k: Kind, f: Payload -> Option<Y>)
    requires LocalGet(m, name, k, f).Some?
    ensures ChainGet([m] + parents, name, k, f) == LocalGet(m, name, k, f)
  {
  }

  /** A child scope without a binding of the kind sees its parents'. */
  lemma ParentVisibleUnlessShadowed<Y>(m: Scope, parents: seq<Scope>, name: string, k: Kind, f: Payload -> Option<Y>)
    requires IndexOfKind(StackOf(m, name), k).None?
    ensures ChainGet([m] + parents, name, k, f) == ChainGet(parents, name, k, f)
  {
    assert ([m] + parents)[1..] == parents;
  }

  /** A name bound in no scope of the chain (for instance, bound only in a
      child of its first scope) is not found. */
  lemma {:induction false} UnboundIsInvisible<Y>(scopes: seq<Scope>, name: string, k: Kind, f: Payload -> Option<Y>)
    requires forall i :: 0 <= i < |scopes| ==> name !in scopes[i]
    ensures ChainGet(scopes, name, k, f) == None
  {
    if scopes != [] {
      UnboundIsInvisible(scopes[1..], name, k, f);
    }
  }

  /** After `addEntry(name, e)` the new binding is what the scope answers
      for its kind, and every other name answers as before. */
  lemma AddThenGetLocal<Y>(s: Scope, name: string, e: Payload, f: Payload -> Option<Y>)
    ensures LocalGet(Push(s, name, e), name, KindOf(e), f) == f(e)
    ensures forall other, k :: other != name ==> LocalGet(Push(s, name, e), other, k, f) == LocalGet(s, other, k, f)
  {
  }

  lemma {:induction false} IndexOfKindSameKinds(a: Stack, b: Stack, k: Kind)
    requires |a| == |b|
    requires forall i :: 0 <= i < |a| ==> KindOf(a[i]) == KindOf(b[i])
    ensures IndexOfKind(a, k) == IndexOfKind(b, k)
  {
    if a != [] {
      IndexOfKindSameKinds(a[1..], b[1..], k);
    }
  }

  /** `set` makes the overwritten (or added) binding the one the scope
      answers for its kind. */
  lemma SetThenGetLocal<Y>(s: Scope, name: string, v: Payload, f: Payload -> Option<Y>)
    ensures LocalGet(SetLocal(s, name, KindOf(v), v), name, KindOf(v), f) == f(v)
  {
    var st := StackOf(s, name);
    match IndexOfKind(st, KindOf(v))
    case Some(j) =>
      IndexOfKindSameKinds(st, st[j := v], KindOf(v));
    case None =>
  }

  /** `set` leaves the answers for every other kind, and every other name,
      as they were. */
  lemma SetKeepsOtherLookups<Y>(s: Scope, name: string, v: Payload, k': Kind, f: Payload -> Option<Y>)
    requires k' != KindOf(v)
    ensures LocalGet(SetLocal(s, name, KindOf(v), v), name, k', f) == LocalGet(s, name, k', f)
    ensures forall other :: other != name ==>
              LocalGet(SetLocal(s, name, KindOf(v), v), other, k', f) == LocalGet(s, other, k', f)
  {
    var st := StackOf(s, name);
    match IndexOfKind(st, KindOf(v))
    case Some(j) =>
      IndexOfKindSameKinds(st, st[j := v], k');
    case None =>
      var st' := [v] + st;
      assert st'[1..] == st;
  }

  /** `set` on one name leaves every other name's local answers, for every
      kind, as they were. */
  lemma SetKeepsOtherNames<Y>(s: Scope, name: string, v: Payload, f: Payload -> Option<Y>)
    ensures forall other, k :: other != name ==>
              LocalGet(SetLocal(s, name, KindOf(v), v), other, k, f) == LocalGet(s, other, k, f)
  {
  }

  /** `find` with a list-building matcher and concatenation as the choice
      is `findList` with a predicate accepting everything. */
  lemma {:induction false} FindBuildsFindList(k: Kind, f: Payload -> Stack, g: (Stack, Stack) -> Stack, l: Stack, xs: Stack)
    requires forall x :: f(x) == [x]
    requires forall a, b :: g(a, b) == a + b
    ensures FoldKind(k, f, g, l, xs) == l + Collect(k, Always, xs)
    decreases |xs|
  {
    if xs != [] {
      if KindOf(xs[0]) == k {
        FindBuildsFindList(k, f, g, l + [xs[0]], xs[1..]);
      } else {
        FindBuildsFindList(k, f, g, l, xs[1..]);
      }
    }
  }

  /** A breaker that never fires gives the plain `find`. */
  lemma {:induction false} UntilWithoutBreak<Y>(k: Kind, f: Payload -> Y, g: (Y, Y) -> Y, h: Y -> bool, y: Y, xs: Stack)
    requires forall v :: !h(v)
    ensures FoldUntil(k, f, g, h, y, xs) == FoldKind(k, f, g, y, xs)
    decreases |xs|
  {
    if xs != [] {
      if KindOf(xs[0]) == k {
        UntilWithoutBreak(k, f, g, h, g(y, f(xs[0])), xs[1..]);
      } else {
        UntilWithoutBreak(k, f, g, h, y, xs[1..]);
      }
    }
  }

  /** The early-stop `find` answers either a value its breaker accepts or,
      when the breaker never fires, the plain `find`. */
  lemma {:induction false} UntilStopsOnAccepted<Y>(k: Kind, f: Payload -> Y, g: (Y, Y) -> Y, h: Y -> bool, y: Y, xs: Stack)
    ensures var r := FoldUntil(k, f, g, h, y, xs);
            h(r) || r == FoldKind(k, f, g, y, xs)
    decreases |xs|
  {
    if xs != [] {
      if KindOf(xs[0]) == k {
        var y' := g(y, f(xs[0]));
        if !h(y') {
          UntilStopsOnAccepted(k, f, g, h, y', xs[1..]);
        }
      } else {
        UntilStopsOnAccepted(k, f, g, h, y, xs[1..]);
      }
    }
  }
}
