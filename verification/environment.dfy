/** TEnv: a scope of the transpiler's environment, linked to its parent
    scope.  Each scope maps a name to its shadow stack of bindings (newest
    first).  `GetEntry` reads one scope's stack and `GetLocal` scans it with
    an index; `Get`, the `Find`s and `FindList` also follow the parent links
    outward.  Each lookup is proved equal to the corresponding function of
    module Scopes over `Scopes()`, the chain's maps from the nearest
    outward. */
module Environment {
  import opened Common
  import opened Types
  import opened Scopes
  import opened SymbolKeys

  /** The maps of a chain of scopes, in chain order. */
  ghost function ScopesOf(c: seq<TEnv>): (r: seq<Scope>)
    reads c
    ensures |r| == |c|
    ensures forall i :: 0 <= i < |c| ==> r[i] == c[i].definedMap
  {
    if c == [] then [] else [c[0].definedMap] + ScopesOf(c[1..])
  }

  /** The identity matcher for types: `get(tsig, TType.class)`. */
  function AsTy(p: Payload): (r: Option<Ty>)
    ensures r.Some? <==> p.TypeP?
  {
    if p.TypeP? then Some(p.ty) else None
  }

  /** The identity matcher for typing rules. */
  function AsRule(p: Payload): (r: Option<nat>)
    ensures r.Some? <==> p.RuleP?
  {
    if p.RuleP? then Some(p.rule) else None
  }

  /** `getType(tsig)`: the nearest type bound to the name. */
  function TypeNamed(scopes: seq<Scope>, tsig: string): Option<Ty> {
    ChainGet(scopes, tsig, TypeKind, AsTy)
  }

  /** The types named by each signature, in order. */
  function TypesNamed(scopes: seq<Scope>, tsigs: seq<string>): (r: seq<Option<Ty>>)
    ensures |r| == |tsigs|
    ensures forall i :: 0 <= i < |tsigs| ==> r[i] == TypeNamed(scopes, tsigs[i])
  {
    seq(|tsigs|, i requires 0 <= i < |tsigs| => TypeNamed(scopes, tsigs[i]))
  }

  /** The nearest typing rule bound to a tag. */
  function RuleFor(scopes: seq<Scope>, tag: string): Option<nat> {
    ChainGet(scopes, tag, RuleKind, AsRule)
  }

  /** `setSourcePosition(t)` on the node a rule built, or on the error it
      raised. */
  function Positioned(res: Result<Code>, pos: nat): (r: Result<Code>)
    ensures r.Ok? <==> res.Ok?
    ensures r.Ok? ==> r.value.body == res.value.body && r.value.pos == Some(pos)
    ensures r.Err? ==> r.error.kind == res.error.kind && r.error.subject == res.error.subject
                       && r.error.pos == Some(pos)
  {
    match res
    case Ok(c) => Ok(c.(pos := Some(pos)))
    case Err(e) => Err(e.(pos := Some(pos)))
  }

  /** The templates among some bindings, in order. */
  function TemplatesOf(xs: Stack): (r: seq<Template>)
    ensures |r| <= |xs|
  {
    if xs == [] then []
    else (if xs[0].TemplateP? then [xs[0].tmpl] else []) + TemplatesOf(xs[1..])
  }

  /** The overload candidates for a call with `n` arguments: the templates
      with `n` parameters among the bindings, in scan order. */
  function Candidates(xs: Stack, n: nat): (r: seq<Template>)
    ensures forall t :: t in r ==> |t.params| == n && TemplateP(t) in xs
  {
    if xs == [] then []
    else (if xs[0].TemplateP? && |xs[0].tmpl.params| == n then [xs[0].tmpl] else []) + Candidates(xs[1..], n)
  }

  /** `b` is the first candidate of least cost. */
  predicate FirstMin(cands: seq<Template>, cost: Template -> nat, b: nat) {
    b < |cands|
    && (forall j :: 0 <= j < |cands| ==> cost(cands[b]) <= cost(cands[j]))
    && (forall j :: 0 <= j < b ==> cost(cands[b]) < cost(cands[j]))
  }

  /** The answer of overload resolution for the candidates: an undefined
      callee when there are none; otherwise the first cheapest candidate
      when it costs less than `stupid`, and a mismatch when it does not. */
  ghost predicate Resolves(cands: seq<Template>, cost: Template -> nat, stupid: nat, name: string, r: Result<Template>) {
    if cands == [] then r == Err(Error(UndefinedCallee, name, None))
    else exists b: nat :: FirstMin(cands, cost, b) &&
           r == if cost(cands[b]) < stupid then Ok(cands[b]) else Err(Error(Mismatched, name, None))
  }

  /** The first cheapest candidate is unique, so the answer is determined. */
  lemma FirstMinUnique(cands: seq<Template>, cost: Template -> nat, b1: nat, b2: nat)
    requires FirstMin(cands, cost, b1) && FirstMin(cands, cost, b2)
    ensures b1 == b2
  {
    assert cost(cands[b1]) == cost(cands[b2]);
  }

  lemma ResolvesUnique(cands: seq<Template>, cost: Template -> nat, stupid: nat, name: string,
                          r1: Result<Template>, r2: Result<Template>)
    requires Resolves(cands, cost, stupid, name, r1) && Resolves(cands, cost, stupid, name, r2)
    ensures r1 == r2
  {
    if cands != [] {
      var b1: nat :| FirstMin(cands, cost, b1) &&
        r1 == if cost(cands[b1]) < stupid then Ok(cands[b1]) else Err(Error(Mismatched, name, None));
      var b2: nat :| FirstMin(cands, cost, b2) &&
        r2 == if cost(cands[b2]) < stupid then Ok(cands[b2]) else Err(Error(Mismatched, name, None));
      FirstMinUnique(cands, cost, b1, b2);
    }
  }

  /** The minimum-cost scan of `findParamCode`: the running best is
      replaced only by a strictly cheaper candidate, and the scan stops as
      soon as the best costs nothing.  `stupid` is the cost from which a
      match is refused (OCast.STUPID, a positive constant). */
  method SelectBest(cands: seq<Template>, cost: Template -> nat, stupid: nat, name: string)
    returns (r: Result<Template>)
    requires 0 < stupid
    ensures Resolves(cands, cost, stupid, name, r)
  {
    if |cands| == 0 {
      return Err(Error(UndefinedCallee, name, None));
    }
    var start := cands[0];
    ghost var b: nat := 0;
    var i := 1;
    while i < |cands|
      invariant 1 <= i <= |cands|
      invariant b < i && start == cands[b]
      invariant forall j :: 0 <= j < i ==> cost(start) <= cost(cands[j])
      invariant forall j :: 0 <= j < b ==> cost(start) < cost(cands[j])
    {
      if cost(start) <= 0 {
        assert FirstMin(cands, cost, b);
        return Ok(start);
      }
      var next := cands[i];
      if cost(next) < cost(start) {
        start := next;
        b := i;
      }
      i := i + 1;
    }
    assert FirstMin(cands, cost, b);
    if cost(start) >= stupid {
      return Err(Error(Mismatched, name, None));
    }
    return Ok(start);
  }

  /** The arity filter of `findParamCode`, passed to `findList`, keeps
      exactly the overload candidates. */
  lemma {:induction false} ArityFilterGivesCandidates(p: Payload -> bool, n: nat, xs: Stack)
    requires forall x :: p(x) == (x.TemplateP? && |x.tmpl.params| == n)
    ensures TemplatesOf(Collect(TemplateKind, p, xs)) == Candidates(xs, n)
  {
    if xs != [] {
      ArityFilterGivesCandidates(p, n, xs[1..]);
      var tail := Collect(TemplateKind, p, xs[1..]);
      if KindOf(xs[0]) == TemplateKind && p(xs[0]) {
        assert Collect(TemplateKind, p, xs) == [xs[0]] + tail;
        assert ([xs[0]] + tail)[1..] == tail;
      } else {
        assert Collect(TemplateKind, p, xs) == [] + tail == tail;
      }
    }
  }

  /** `find`'s inner loop over one shadow stack (`d = d.pop()`), newest
      binding first: after it, the fold over whatever follows the stack
      goes on from the value it returns. */
  method ScanFind<Y>(st: Stack, ghost rest: Stack, k: Kind, f: Payload -> Y, g: (Y, Y) -> Y, y0: Y) returns (y: Y)
    ensures FoldKind(k, f, g, y0, st + rest) == FoldKind(k, f, g, y, rest)
  {
    y := y0;
    var j := 0;
    assert st[j..] == st;
    while j < |st|
      invariant 0 <= j <= |st|
      invariant FoldKind(k, f, g, y0, st + rest) == FoldKind(k, f, g, y, st[j..] + rest)
    {
      FoldKindStep(k, f, g, y, st, j, rest);
      if KindOf(st[j]) == k {
        y := g(y, f(st[j]));
      }
      j := j + 1;
    }
    assert st[j..] + rest == rest;
  }

  /** The inner loop of the early-stop `find`: `stop` tells whether the
      breaker accepted a value in this stack, which is then the answer;
      otherwise the fold goes on from the value returned. */
  method ScanFindUntil<Y>(st: Stack, ghost rest: Stack, k: Kind, f: Payload -> Y, g: (Y, Y) -> Y, h: Y -> bool, y0: Y)
    returns (y: Y, stop: bool)
    ensures stop ==> h(y)
    ensures FoldUntil(k, f, g, h, y0, st + rest) == if stop then y else FoldUntil(k, f, g, h, y, rest)
  {
    y := y0;
    var j := 0;
    assert st[j..] == st;
    while j < |st|
      invariant 0 <= j <= |st|
      invariant FoldUntil(k, f, g, h, y0, st + rest) == FoldUntil(k, f, g, h, y, st[j..] + rest)
    {
      FoldUntilStep(k, f, g, h, y, st, j, rest);
      if KindOf(st[j]) == k {
        y := g(y, f(st[j]));
        if h(y) {
          return y, true;
        }
      }
      j := j + 1;
    }
    assert st[j..] + rest == rest;
    stop := false;
  }

  /** `findList`'s inner loop over one shadow stack: the matching bindings
      are appended to the list in stack order. */
  method ScanFindList(st: Stack, ghost rest: Stack, k: Kind, p: Payload -> bool, out0: Stack) returns (out: Stack)
    ensures Gather(k, p, out0, st + rest) == Gather(k, p, out, rest)
  {
    out := out0;
    var j := 0;
    assert st[j..] == st;
    while j < |st|
      invariant 0 <= j <= |st|
      invariant Gather(k, p, out0, st + rest) == Gather(k, p, out, st[j..] + rest)
    {
      GatherStep(k, p, out, st, j, rest);
      if KindOf(st[j]) == k && p(st[j]) {
        out := out + [st[j]];
      }
      j := j + 1;
    }
    assert st[j..] + rest == rest;
  }

  class TEnv {
    /** The enclosing scope, or null for the outermost one. */
    const parent: TEnv?
    /** name -> shadow stack, newest binding first. */
    var definedMap: Scope
    /** The enclosing scopes, nearest first. */
    ghost const Ancestors: seq<TEnv>

    ghost predicate Valid()
      decreases |Ancestors|
    {
      this !in Ancestors
      && (parent == null ==> Ancestors == [])
      && (parent != null ==> Ancestors == [parent] + parent.Ancestors && parent.Valid())
    }

    /** This scope and all its enclosing ones, nearest first. */
    ghost function Chain(): seq<TEnv> {
      [this] + Ancestors
    }

    /** The maps along the chain: the environment as lookups see it. */
    ghost function Scopes(): seq<Scope>
      reads Chain()
    {
      ScopesOf(Chain())
    }

    constructor (parent: TEnv?)
      requires parent != null ==> parent.Valid()
      ensures Valid() && this.parent == parent && definedMap == map[]
      ensures Chain() == [this] + (if parent == null then [] else parent.Chain())
    {
      this.parent := parent;
      this.definedMap := map[];
      this.Ancestors := if parent == null then [] else [parent] + parent.Ancestors;
    }

    lemma {:induction false} ChainFacts()
      requires Valid()
      ensures forall i :: 0 <= i < |Chain()| ==> Chain()[i].Valid() && Chain()[i].Chain() == Chain()[i..]
      decreases |Ancestors|
    {
      if parent != null {
        parent.ChainFacts();
        forall i | 1 <= i < |Chain()|
          ensures Chain()[i].Valid() && Chain()[i].Chain() == Chain()[i..]
        {
          assert Chain()[i] == parent.Chain()[i - 1];
          assert Chain()[i..] == parent.Chain()[i - 1..];
        }
      }
    }

    /** The cursor step `env = env.getParent()` moves one place along the
        chain and leaves it at its end. */
    lemma ParentStep(i: nat)
      requires Valid() && i < |Chain()|
      ensures Chain()[i].parent == if i + 1 < |Chain()| then Chain()[i + 1] else null
    {
      ChainFacts();
      var e := Chain()[i];
      assert e.Chain() == Chain()[i..];
      if e.parent != null {
        assert e.Chain()[1] == e.parent;
      }
    }

    /** One step of the cursor walk `env = env.getParent()` from position
        `i`: the scope there contributes its stack first, and its parent
        is the next position, or null at the end of the chain. */
    lemma WalkStep(i: nat, env: TEnv, name: string)
      requires Valid() && i < |Chain()| && env == Chain()[i]
      ensures env.parent == if i + 1 < |Chain()| then Chain()[i + 1] else null
      ensures Scopes()[i..] == [env.definedMap] + Scopes()[i + 1..]
      ensures Visible(Scopes()[i..], name) == StackOf(env.definedMap, name) + Visible(Scopes()[i + 1..], name)
    {
      ParentStep(i);
      assert Scopes()[i..][1..] == Scopes()[i + 1..];
    }

    /** `newEnv()`: a fresh, empty scope whose parent is this one. */
    method NewEnv() returns (child: TEnv)
      requires Valid()
      ensures fresh(child) && child.Valid() && child.parent == this
      ensures child.Scopes() == [map[]] + Scopes()
    {
      child := new TEnv(this);
    }

    /** `getEntry(name)`: the head of the name's stack here (no binding
        reads as the empty stack). */
    method GetEntry(name: string) returns (st: Stack)
      ensures st == StackOf(definedMap, name)
    {
      if name in definedMap {
        st := definedMap[name];
      } else {
        st := [];
      }
    }

    /** `addEntry(name, e)`: `e` is pushed onto the name's stack in this
        scope; the enclosing scopes do not change. */
    method AddEntry(name: string, e: Payload)
      requires Valid()
      modifies this
      ensures definedMap == Push(old(definedMap), name, e)
      ensures Scopes() == [definedMap] + old(Scopes())[1..]
    {
      var prev := GetEntry(name);
      definedMap := definedMap[name := [e] + prev];
    }

    /** `set(name, c, value)`: the newest local binding of the value's kind
        is overwritten (`setHandled`); when there is none, the value is
        added here.  Enclosing scopes never change. */
    method Set(name: string, value: Payload)
      requires Valid()
      modifies this
      ensures definedMap == SetLocal(old(definedMap), name, KindOf(value), value)
      ensures Scopes() == [definedMap] + old(Scopes())[1..]
    {
      var st := GetEntry(name);
      var j := 0;
      while j < |st|
        invariant 0 <= j <= |st|
        invariant forall m :: 0 <= m < j ==> KindOf(st[m]) != KindOf(value)
      {
        if KindOf(st[j]) == KindOf(value) {
          definedMap := definedMap[name := st[j := value]];
          return;
        }
        j := j + 1;
      }
      AddEntry(name, value);
    }

    /** `getLocal(name, c, f)`: this scope only, newest first. */
    method GetLocal<Y>(name: string, k: Kind, f: Payload -> Option<Y>) returns (y: Option<Y>)
      ensures y == LocalGet(definedMap, name, k, f)
    {
      var st := GetEntry(name);
      var j := 0;
      while j < |st|
        invariant 0 <= j <= |st|
        invariant forall m :: 0 <= m < j ==> KindOf(st[m]) != k
      {
        if KindOf(st[j]) == k {
          return f(st[j]);
        }
        j := j + 1;
      }
      return None;
    }

    /** `get(name, c, f)`: the first local answer, walking outward. */
    method Get<Y>(name: string, k: Kind, f: Payload -> Option<Y>) returns (y: Option<Y>)
      requires Valid()
      ensures y == ChainGet(Scopes(), name, k, f)
    {
      var env: TEnv? := this;
      ghost var i: nat := 0;
      while env != null
        invariant i <= |Chain()|
        invariant env == null <==> i == |Chain()|
        invariant env != null ==> env == Chain()[i]
        invariant ChainGet(Scopes(), name, k, f) == ChainGet(Scopes()[i..], name, k, f)
        decreases |Chain()| - i
      {
        WalkStep(i, env, name);
        y := env.GetLocal(name, k, f);
        if y.Some? {
          return;
        }
        env := env.parent;
        i := i + 1;
      }
      return None;
    }

    /** `find(name, c, f, g, start)`: `g` folded over the matcher's answers
        for every binding of the kind along the chain. */
    method Find<Y>(name: string, k: Kind, f: Payload -> Y, g: (Y, Y) -> Y, start: Y) returns (y: Y)
      requires Valid()
      ensures y == FoldKind(k, f, g, start, Visible(Scopes(), name))
    {
      ghost var sc := Scopes();
      ghost var target := FoldKind(k, f, g, start, Visible(sc, name));
      y := start;
      var env: TEnv? := this;
      ghost var i: nat := 0;
      while env != null
        invariant i <= |Chain()|
        invariant env == null <==> i == |Chain()|
        invariant env != null ==> env == Chain()[i]
        invariant target == FoldKind(k, f, g, y, Visible(sc[i..], name))
        decreases |Chain()| - i
      {
        WalkStep(i, env, name);
        var st := env.GetEntry(name);
        y := ScanFind(st, Visible(sc[i + 1..], name), k, f, g, y);
        env := env.parent;
        i := i + 1;
      }
      assert Visible(sc[i..], name) == [];
    }

    /** `find(name, c, f, g, start, h)`: as Find, but the first accumulated
        value that `h` accepts is returned at once. */
    method FindUntil<Y>(name: string, k: Kind, f: Payload -> Y, g: (Y, Y) -> Y, start: Y, h: Y -> bool)
      returns (y: Y)
      requires Valid()
      ensures y == FoldUntil(k, f, g, h, start, Visible(Scopes(), name))
    {
      ghost var sc := Scopes();
      ghost var target := FoldUntil(k, f, g, h, start, Visible(sc, name));
      y := start;
      var env: TEnv? := this;
      ghost var i: nat := 0;
      while env != null
        invariant i <= |Chain()|
        invariant env == null <==> i == |Chain()|
        invariant env != null ==> env == Chain()[i]
        invariant target == FoldUntil(k, f, g, h, y, Visible(sc[i..], name))
        decreases |Chain()| - i
      {
        WalkStep(i, env, name);
        var st := env.GetEntry(name);
        var stop;
        y, stop := ScanFindUntil(st, Visible(sc[i + 1..], name), k, f, g, h, y);
        if stop {
          return;
        }
        env := env.parent;
        i := i + 1;
      }
      assert Visible(sc[i..], name) == [];
    }

    /** `findList(name, c, l, f)`: the list `l` extended with every binding
        of the kind that `p` accepts, along the chain in scan order. */
    method FindList(name: string, k: Kind, l: Stack, p: Payload -> bool) returns (out: Stack)
      requires Valid()
      ensures out == l + Collect(k, p, Visible(Scopes(), name))
    {
      ghost var sc := Scopes();
      ghost var target := Gather(k, p, l, Visible(sc, name));
      GatherAppends(k, p, l, Visible(sc, name));
      out := l;
      var env: TEnv? := this;
      ghost var i: nat := 0;
      while env != null
        invariant i <= |Chain()|
        invariant env == null <==> i == |Chain()|
        invariant env != null ==> env == Chain()[i]
        invariant target == Gather(k, p, out, Visible(sc[i..], name))
        decreases |Chain()| - i
      {
        WalkStep(i, env, name);
        var st := env.GetEntry(name);
        out := ScanFindList(st, Visible(sc[i + 1..], name), k, p, out);
        env := env.parent;
        i := i + 1;
      }
      assert Visible(sc[i..], name) == [];
    }

    /** `getType(tsig)`. */
    method GetType(tsig: string) returns (t: Option<Ty>)
      requires Valid()
      ensures t == TypeNamed(Scopes(), tsig)
    {
      t := Get(tsig, TypeKind, AsTy);
    }

    /** The parameter types of a signature: an array filled by `getType`
        for each parameter signature in turn. */
    method GetTypes(tsigs: seq<string>) returns (ps: seq<Option<Ty>>)
      requires Valid()
      ensures ps == TypesNamed(Scopes(), tsigs)
    {
      var p := new Option<Ty>[|tsigs|];
      var i := 0;
      while i < p.Length
        invariant 0 <= i <= p.Length
        invariant forall m :: 0 <= m < i ==> p[m] == TypeNamed(Scopes(), tsigs[m])
      {
        var ti := GetType(tsigs[i]);
        p[i] := ti;
        i := i + 1;
      }
      ps := p[..];
    }

    /** `defineSymbol(key, value)`: registers the template the key
        describes.  A key whose signature part splits into nothing (`f::`)
        fails on the empty signature array, before anything is added. */
    method DefineSymbol(key: string, value: string) returns (err: Option<Error>)
      requires Valid()
      modifies this
      ensures Scopes()[1..] == old(Scopes())[1..]
      ensures match ParseKey(key)
        case Plain(n) =>
          err == None && definedMap == Push(old(definedMap), n, TemplateP(Template(n, Some(Untyped), [], value)))
        case Malformed =>
          err == Some(Error(IndexOutOfBounds, key, None)) && definedMap == old(definedMap)
        case Typed(n, ps, rs) =>
          var t := TemplateP(Template(n, TypeNamed(old(Scopes()), rs), TypesNamed(old(Scopes()), ps), value));
          err == None &&
          definedMap == if ps == [] then Push(Push(old(definedMap), n, t), key, t) else Push(old(definedMap), n, t)
    {
      var loc := IndexOf(key, ':');
      if loc == -1 {
        AddEntry(key, TemplateP(Template(key, Some(Untyped), [], value)));
        return None;
      }
      var name, tsigs := key[..loc], JavaSplit(key[loc + 1..]);
      assert ParseKey(key) == ShapeOf(name, tsigs);
      err := DefineTyped(key, name, tsigs, value);
    }

    /** The typed branch of `defineSymbol`: `tsigs` are the pieces after
        the first colon of `key`, the last one naming the return type. */
    method DefineTyped(key: string, name: string, tsigs: seq<string>, value: string) returns (err: Option<Error>)
      requires Valid()
      modifies this
      ensures Scopes()[1..] == old(Scopes())[1..]
      ensures match ShapeOf(name, tsigs)
        case Typed(n, ps, rs) =>
          var t := TemplateP(Template(n, TypeNamed(old(Scopes()), rs), TypesNamed(old(Scopes()), ps), value));
          err == None &&
          definedMap == if ps == [] then Push(Push(old(definedMap), n, t), key, t) else Push(old(definedMap), n, t)
        case _ =>
          err == Some(Error(IndexOutOfBounds, key, None)) && definedMap == old(definedMap)
    {
      if |tsigs| == 0 {
        return Some(Error(IndexOutOfBounds, key, None));
      }
      var ret := GetType(tsigs[|tsigs| - 1]);
      if |tsigs| > 1 {
        var p := GetTypes(tsigs[..|tsigs| - 1]);
        AddEntry(name, TemplateP(Template(name, ret, p, value)));
      } else {
        var t := TemplateP(Template(name, ret, [], value));
        AddEntry(name, t);
        AddEntry(key, t);
      }
      return None;
    }

    /** `findParamCode(env, name, params)` for `n` arguments: the templates
        of the name with `n` parameters, resolved by cost. */
    method FindParamCode(name: string, n: nat, cost: Template -> nat, stupid: nat) returns (r: Result<Template>)
      requires Valid() && 0 < stupid
      ensures Resolves(Candidates(Visible(Scopes(), name), n), cost, stupid, name, r)
    {
      var p := (x: Payload) => x.TemplateP? && |x.tmpl.params| == n;
      var l := FindList(name, TemplateKind, [], p);
      assert l == Collect(TemplateKind, p, Visible(Scopes(), name));
      ArityFilterGivesCandidates(p, n, Visible(Scopes(), name));
      r := SelectBest(TemplatesOf(l), cost, stupid, name);
    }

    /** `typeTree(env, t)`: the nearest rule for the tree's tag builds the
        node; without one, `load` supplies a rule, which is added under the
        tag before retrying.  `loaded` tells whether `load` was consulted. */
    method TypeTree(t: Tree, load: string -> Option<nat>, apply: (nat, Tree) -> Result<Code>)
      returns (r: Result<Code>, loaded: bool)
      requires Valid()
      modifies this
      ensures Scopes()[1..] == old(Scopes())[1..]
      ensures match RuleFor(old(Scopes()), t.tag)
        case Some(rule) =>
          !loaded && definedMap == old(definedMap) && r == Positioned(apply(rule, t), t.pos)
        case None =>
          loaded && match load(t.tag)
            case None =>
              definedMap == old(definedMap) && r == Err(Error(UndefinedSyntax, t.tag, Some(t.pos)))
            case Some(rule) =>
              definedMap == Push(old(definedMap), t.tag, RuleP(rule)) && r == Positioned(apply(rule, t), t.pos)
      ensures RuleFor(old(Scopes()), t.tag).Some? || load(t.tag).Some? ==> RuleFor(Scopes(), t.tag).Some?
      decreases if RuleFor(Scopes(), t.tag).Some? then 0 else 1
    {
      var found := Get(t.tag, RuleKind, AsRule);
      if found.Some? {
        return Positioned(apply(found.value, t), t.pos), false;
      }
      var rule := load(t.tag);
      if rule.None? {
        return Err(Error(UndefinedSyntax, t.tag, Some(t.pos))), true;
      }
      AddEntry(t.tag, RuleP(rule.value));
      AddThenGetLocal(old(definedMap), t.tag, RuleP(rule.value), AsRule);
      var again;
      r, again := TypeTree(t, load, apply);
      loaded := true;
    }
  }

  /** A binding added in a new child scope is what the child answers for
      its kind, and is invisible from the parent, whose lookups answer as
      before. */
  method ChildBindingIsLocal<Y>(env: TEnv, name: string, e: Payload, k: Kind, f: Payload -> Option<Y>)
    returns (inChild: Option<Y>, inParent: Option<Y>)
    requires env.Valid()
    ensures inChild == f(e)
    ensures inParent == ChainGet(old(env.Scopes()), name, k, f)
    ensures (forall i :: 0 <= i < |old(env.Scopes())| ==> name !in old(env.Scopes())[i]) ==> inParent == None
    ensures env.definedMap == old(env.definedMap)
  {
    var child := env.NewEnv();
    child.AddEntry(name, e);
    AddThenGetLocal(map[], name, e, f);
    inChild := child.GetLocal(name, KindOf(e), f);
    inParent := env.Get(name, k, f);
    assert env.Scopes() == old(env.Scopes());
    if forall i :: 0 <= i < |env.Scopes()| ==> name !in env.Scopes()[i] {
      UnboundIsInvisible(env.Scopes(), name, k, f);
    }
  }

  /** Typing two trees of the same tag one after the other: once the first
      has loaded a rule, the second finds it and loads nothing. */
  method TypeTreeTwice(env: TEnv, t1: Tree, t2: Tree, load: string -> Option<nat>, apply: (nat, Tree) -> Result<Code>)
    returns (r1: Result<Code>, r2: Result<Code>, loads: nat)
    requires env.Valid() && t1.tag == t2.tag
    modifies env
    ensures RuleFor(old(env.Scopes()), t1.tag).Some? ==> loads == 0
    ensures RuleFor(old(env.Scopes()), t1.tag).None? ==> loads == (if load(t1.tag).Some? then 1 else 2)
    ensures match RuleFor(old(env.Scopes()), t1.tag)
      case Some(rule) => r1 == Positioned(apply(rule, t1), t1.pos)
      case None => load(t1.tag).Some? ==> r1 == Positioned(apply(load(t1.tag).value, t1), t1.pos)
    ensures match RuleFor(old(env.Scopes()), t1.tag)
      case Some(rule) => r2 == Positioned(apply(rule, t2), t2.pos)
      case None => load(t1.tag).Some? ==> r2 == Positioned(apply(load(t1.tag).value, t2), t2.pos)
  {
    var l1, l2;
    r1, l1 := env.TypeTree(t1, load, apply);
    r2, l2 := env.TypeTree(t2, load, apply);
    loads := (if l1 then 1 else 0) + (if l2 then 1 else 0);
  }
}
