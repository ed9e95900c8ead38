# Origami transpiler: environment, tag types and two typing rules

This project models the semantic-analysis core of the origami transpiler
(package `blue.origami.transpiler`) in Dafny and proves properties of it.

- **TEnv** (`environment.dfy`, `scopes.dfy`, `keys.dfy`) is the scoped
  environment. A `TEnv` is a class with a constant parent link and a mutable
  `definedMap`. That map takes each name to its shadow stack of bindings,
  newest first; this is the chain of `TEnvEntry` nodes linked by `push`.
  - `getEntry` reads the name's stack in one scope. `getLocal` scans that
    stack, newest first, with an index in place of the `pop` cursor. `get`,
    both `find`s and `findList` also follow the parent links outward, and
    the last three scan each scope's stack in an inner loop.
  - Each lookup is proved equal to a function over the chain's maps, in
    module `Scopes`. The lemmas there state what those functions promise:
    the nearest binding wins, a child's bindings are invisible from its
    parent, and `findList` collects exactly the matching bindings.
  - `set` (which overwrites a binding in place with `setHandled`) and
    `addEntry` are methods whose new state is stated as a function of the
    old one.
  - `defineSymbol` reads a key `name`, `name:Ret` or `name:T1:...:Tk:Ret`
    with Java's `indexOf` and `split(":")` semantics, written out. The
    parsing functions and their round-trip lemmas live in `SymbolKeys`.
  - `findParamCode` chooses the first cheapest candidate among the
    templates of the right arity.
  - `typeTree` looks up the typing rule for a tree's tag. If there is none,
    it loads a rule, adds it under the tag and tries again.
- **TagTy** (`tagty.dfy`) is a type refined by a list of tag names. The
  inner queries (`hasVar`, `isMutable`, `dupVar`, `finalTy`) pass through
  the tag layers. `acceptTy` and `matchTags` compare tag lists, and
  `joins` merges two of them.
- **GetCode** (`member_access.dfy`) is the field-access node. Its `asType`
  resolves the node's type once. It binds a type-variable receiver to a
  fresh open data type, and each failure raises its own error.
- **DataType** (`record_rule.dfy`) is the typing rule that builds a record
  type from a list of field names, each of which must have a name hint.

Several parts of the transpiler are not modelled and are passed in as
function parameters:
- the class loader used by `typeTree`;
- a rule's `apply`;
- the name hints;
- the data types' field check;
- the match cost of a template;
- the behaviour of the non-tag types under a tag.

Tag lists are compared exactly: `acceptTy` goes through `matchTags`,
which requires equal lists element by element, so the tag list `a` is not
accepted for `a, b` (`TagTy.SubsetTagsRejected`).

## Model

| member | source | states |
|---|---|---|
| Environment.TEnv.constructor | src/main/java/blue/origami/transpiler/TEnv.java:21-23 | a new scope has the given parent, an empty map, and the parent's chain behind it |
| Environment.TEnv.NewEnv | src/main/java/blue/origami/transpiler/TEnv.java:96-98 | `newEnv` gives a fresh empty scope whose lookups see exactly this scope's chain behind it |
| Environment.TEnv.GetEntry | src/main/java/blue/origami/transpiler/TEnv.java:30-36 | the answer is the name's shadow stack in this scope; an unbound name (or no map yet) gives the empty stack |
| Environment.TEnv.AddEntry | src/main/java/blue/origami/transpiler/TEnv.java:38-50 | the new entry is pushed on top of the previous one for the name (`push(prev)`); other names and enclosing scopes are unchanged |
| Scopes.Push | src/main/java/blue/origami/transpiler/TEnv.java:67-74 | after `push`, the name's stack is the entry followed by the old stack; `pop` gives the old stack back; every other name keeps its stack |
| Scopes.AddThenGetLocal | src/main/java/blue/origami/transpiler/TEnv.java:38-50 | after `addEntry`, the scope answers the new value for its kind, and lookups of other names answer as before |
| Environment.TEnv.Set | src/main/java/blue/origami/transpiler/TEnv.java:116-125 | `set` overwrites the newest local binding of the value's kind (`setHandled`) or, when there is none, adds the value; enclosing scopes are unchanged |
| Scopes.SetThenGetLocal | src/main/java/blue/origami/transpiler/TEnv.java:116-125 | after `set`, the scope answers the value set for its kind |
| Scopes.SetKeepsOtherLookups | src/main/java/blue/origami/transpiler/TEnv.java:116-125 | `set` changes no local answer for another kind, either of this name or of another name |
| Scopes.SetKeepsOtherNames | src/main/java/blue/origami/transpiler/TEnv.java:116-125 | `set` changes no local answer of another name, for any kind, including the value's own |
| Scopes.IndexOfKind | src/main/java/blue/origami/transpiler/TEnv.java:128-133 | the position found is the newest binding of the kind in the stack, with none of that kind before it; no position means none at all |
| Environment.TEnv.GetLocal | src/main/java/blue/origami/transpiler/TEnv.java:127-135 | `getLocal` answers the matcher applied to the newest binding of the kind in this scope, and null when there is none |
| Environment.TEnv.Get | src/main/java/blue/origami/transpiler/TEnv.java:141-149 | `get` answers the first non-null local answer, walking from this scope out through its parents |
| Scopes.NearestWins | src/main/java/blue/origami/transpiler/TEnv.java:141-149 | a non-null answer in the nearest scope hides every enclosing scope |
| Scopes.ParentVisibleUnlessShadowed | src/main/java/blue/origami/transpiler/TEnv.java:141-149 | a scope without a binding of the kind answers what its parents answer |
| Scopes.UnboundIsInvisible | src/main/java/blue/origami/transpiler/TEnv.java:141-149 | a name bound in no scope of the chain is not found |
| Environment.ChildBindingIsLocal | src/main/java/blue/origami/transpiler/TEnv.java:141-149 | a binding added in a new child scope is what the child answers, while the parent's map does not change and its `get` answers what it answered before the child existed; a name bound nowhere in the parent's chain is not found there |
| Scopes.GetIsFirstMatch | src/main/java/blue/origami/transpiler/TEnv.java:141-149 | `get` with the identity matcher answers the first of all the bindings of the kind that `findList` would visit, so the nearest declaration wins |
| Environment.TEnv.Find | src/main/java/blue/origami/transpiler/TEnv.java:163-175 | `find` folds the choicer over the matcher's answers for every binding of the kind, nearest scope first and newest first within a scope |
| Environment.ScanFind | src/main/java/blue/origami/transpiler/TEnv.java:166-172 | the inner `pop` loop over one stack leaves the fold over the rest of the chain to carry on from the value it returns |
| Scopes.FindBuildsFindList | src/main/java/blue/origami/transpiler/TEnv.java:163-175 | `find` with a singleton-list matcher and concatenation as choicer gives the list `findList` builds with an accept-all predicate |
| Environment.TEnv.FindUntil | src/main/java/blue/origami/transpiler/TEnv.java:181-196 | the breaker form of `find` returns the first accumulated value the breaker accepts, and otherwise the full fold |
| Environment.ScanFindUntil | src/main/java/blue/origami/transpiler/TEnv.java:185-193 | the inner loop reports a stop only with a value the breaker accepts, which is then the overall answer |
| Scopes.UntilStopsOnAccepted | src/main/java/blue/origami/transpiler/TEnv.java:181-196 | the breaker `find` answers a value its breaker accepts or the plain `find` |
| Scopes.UntilWithoutBreak | src/main/java/blue/origami/transpiler/TEnv.java:181-196 | with a breaker that never fires, the breaker `find` equals the plain `find` |
| Environment.TEnv.FindList | src/main/java/blue/origami/transpiler/TEnv.java:202-211 | `findList` leaves the given list followed by every binding of the kind that the predicate accepts, in scan order |
| Environment.ScanFindList | src/main/java/blue/origami/transpiler/TEnv.java:204-209 | the inner loop appends the stack's matching bindings in stack order |
| Scopes.GatherAppends | src/main/java/blue/origami/transpiler/TEnv.java:202-211 | running `findList` only appends to the list it was given; nothing already there is dropped or reordered |
| Scopes.CollectExactly | src/main/java/blue/origami/transpiler/TEnv.java:204-208 | a value is added if and only if it is a visited binding of the kind that the predicate accepts |
| Scopes.GetFoundByFindList | src/main/java/blue/origami/transpiler/TEnv.java:202-211 | whatever `get` finds, `findList` with a predicate accepting it finds too |
| SymbolKeys.IndexOf | src/main/java/blue/origami/transpiler/TEnv.java:245 | `indexOf(':')` is the first index of the character, and -1 exactly when the character is absent |
| SymbolKeys.JavaSplitJoin | src/main/java/blue/origami/transpiler/TEnv.java:251 | `split(":")` on colon-joined colon-free pieces gives the pieces back unless the last piece is empty and would be dropped |
| SymbolKeys.ParsePlain | src/main/java/blue/origami/transpiler/TEnv.java:245-248 | a key without a colon names an untyped template after the whole key |
| SymbolKeys.ParseTyped | src/main/java/blue/origami/transpiler/TEnv.java:249-252 | `name:T1:...:Tk:Ret` reads back as its name, its parameter signatures and its return signature |
| SymbolKeys.ParseOnlyColons | src/main/java/blue/origami/transpiler/TEnv.java:251-252 | a key such as `f::` splits into no signature at all, so reading the return signature indexes an empty array |
| Environment.TEnv.GetType | src/main/java/blue/origami/transpiler/TEnv.java:267-269 | `getType` answers the nearest type bound to the signature |
| Environment.TEnv.GetTypes | src/main/java/blue/origami/transpiler/TEnv.java:254-257 | the parameter array holds, at each position, the type `getType` finds for that parameter signature |
| Environment.TEnv.DefineSymbol | src/main/java/blue/origami/transpiler/TEnv.java:244-265 | plain keys add an untyped template under the key. Typed keys add a template whose types are looked up before anything is added, under its name and, without parameters, also under the whole key. A key with no signature piece fails and adds nothing |
| Environment.TEnv.DefineTyped | src/main/java/blue/origami/transpiler/TEnv.java:249-264 | the typed branch: return type from the last piece, parameter types from the others, and the extra entry under the key only when there are no parameters |
| Environment.TEnv.FindParamCode | src/main/java/blue/origami/transpiler/TEnv.java:304-329 | the answer is the resolution of the name's templates with as many parameters as arguments: undefined when there are none, the first cheapest when it costs less than STUPID, a mismatch otherwise |
| Environment.SelectBest | src/main/java/blue/origami/transpiler/TEnv.java:313-328 | the scan that keeps the running best, replaces it only by a strictly cheaper candidate and stops early at cost 0 returns exactly that resolution |
| Environment.ArityFilterGivesCandidates | src/main/java/blue/origami/transpiler/TEnv.java:310-311 | the arity predicate passed to `findList` keeps exactly the templates with the call's number of parameters, in scan order |
| Environment.ResolvesUnique | src/main/java/blue/origami/transpiler/TEnv.java:316-327 | the resolution of a candidate list is a single answer |
| Environment.FirstMinUnique | src/main/java/blue/origami/transpiler/TEnv.java:316-323 | there is only one first cheapest candidate |
| Environment.Positioned | src/main/java/blue/origami/transpiler/TEnv.java:276-278 | a rule's node or error keeps its content and gets the tree's source position |
| Environment.TEnv.TypeTree | src/main/java/blue/origami/transpiler/TEnv.java:271-295 | with a visible rule, the rule builds the node and nothing is loaded. Otherwise a loaded rule is added under the tag before retrying, and a failed load is an undefined syntax at the tree. Afterwards a rule for the tag is visible whenever one was found or loaded |
| Environment.TypeTreeTwice | src/main/java/blue/origami/transpiler/TEnv.java:280-285 | typing two trees with the same tag loads nothing when a rule is already visible, and both are built by that rule. If the first load succeeds, it is the only load and the second tree is built by the registered rule. Only a failed load is attempted again |
| TagTy.IsMutable | src/main/java/blue/origami/transpiler/type/TagTy.java:147-150 | a tag type is mutable exactly when its innermost non-tag type is |
| TagTy.HasVar | src/main/java/blue/origami/transpiler/type/TagTy.java:152-155 | a tag type holds a variable exactly when its innermost non-tag type does |
| TagTy.DupVar | src/main/java/blue/origami/transpiler/type/TagTy.java:157-164 | renaming keeps every tag layer around the renamed core, and gives back the same type exactly when the core did not change |
| TagTy.FinalTy | src/main/java/blue/origami/transpiler/type/TagTy.java:166-173 | resolving keeps every tag layer around the resolved core, and gives back the same type exactly when the core did not change |
| TagTy.RewrapIdentity | src/main/java/blue/origami/transpiler/type/TagTy.java:160-163 | rebuilding the tag layers around a core gives back the same type exactly when the core is the old one |
| TagTy.Accept | src/main/java/blue/origami/transpiler/type/TagTy.java:175-181 | `acceptTy`: a non-tag type is answered by its own check; a tag type facing a non-tag type has only the variable fallback; two tag types with different tag lists are accepted only by the variable fallback (under some log; the body passes the log the inner check left) |
| TagTy.AcceptTagPath | src/main/java/blue/origami/transpiler/type/TagTy.java:175-181 | a non-tag actual type goes to variable acceptance with the given log. When the inner types accept, the answer is whether the tag lists match (`matchTags`). When they do not, the answer is variable acceptance with the log the inner check left |
| TagTy.AcceptNeedsSameLayers | src/main/java/blue/origami/transpiler/type/TagTy.java:175-181 | without variable fallback, acceptance requires the expected type's tag lists to be the actual type's, layer by layer |
| TagTy.SameLayersAccept | src/main/java/blue/origami/transpiler/type/TagTy.java:175-181 | identical tag layers and accepting cores make the tag types accept, with the core check's log |
| TagTy.SubsetTagsRejected | src/main/java/blue/origami/transpiler/type/TagTy.java:177-178 | the tag list `a` is not accepted for `a, b`: tags are matched exactly, not by containment |
| TagTy.MatchTags | src/main/java/blue/origami/transpiler/type/TagTy.java:183-193 | `matchTags` is true if and only if the two tag lists are equal, element by element |
| TagTy.AddAll | src/main/java/blue/origami/transpiler/type/TagTy.java:235-241 | adding strings to a set holds exactly the old and new strings, without duplicates |
| TagTy.Joins | src/main/java/blue/origami/transpiler/type/TagTy.java:225-243 | the join holds exactly both lists' tags. A singleton already present gives the other list itself, and one not present adds exactly one tag. The general case has no duplicates |
| TagTy.JoinsSwap | src/main/java/blue/origami/transpiler/type/TagTy.java:232-234 | a list joined with a singleton is the singleton joined with the list |
| TagTy.JoinsCommuteAsSets | src/main/java/blue/origami/transpiler/type/TagTy.java:225-243 | joining is commutative on the tags it holds |
| MemberAccess.GetCode.constructor | src/main/java/blue/origami/transpiler/code/GetCode.java:15-19 | a new access node records the field name and its position, and is untyped |
| MemberAccess.TypeVars.Bind | src/main/java/blue/origami/transpiler/code/GetCode.java:30-31 | accepting the inferred data type binds the variable to it and changes no other binding |
| MemberAccess.GetCode.AsType | src/main/java/blue/origami/transpiler/code/GetCode.java:25-51 | an untyped node takes the resolved field type and is cast, or stays untyped with the error. A typed node is only cast. The variable binding changes exactly when an untyped node's receiver is a variable |
| MemberAccess.AsTypeTwice | src/main/java/blue/origami/transpiler/code/GetCode.java:27-50 | after a successful typing, a second request casts the type already resolved; over both requests the variable binding changes only as one untyped typing of a variable receiver changes it |
| MemberAccess.VarReceiverIsData | src/main/java/blue/origami/transpiler/code/GetCode.java:29-46 | a variable receiver is handled as an open data type: never unsupported, and successful exactly when the name has a hint and the field check passes |
| MemberAccess.DataWithoutHint | src/main/java/blue/origami/transpiler/code/GetCode.java:34-38 | a data receiver and a name without a global hint give an undefined name at the access |
| MemberAccess.DataWithHint | src/main/java/blue/origami/transpiler/code/GetCode.java:34-46 | a data receiver with a hint and the field gives the self type of the hint's type in the receiver |
| MemberAccess.UnsupportedIffNotData | src/main/java/blue/origami/transpiler/code/GetCode.java:29-48 | the access is an unsupported operator exactly when the receiver is neither a variable nor a data type |
| MemberAccess.AccessOutcome | src/main/java/blue/origami/transpiler/code/GetCode.java:34-48 | every error is reported at the access, and every success is a self type owned by a data type with the hint's type |
| RecordRule.FirstUnknown | src/main/java/blue/origami/transpiler/rule/DataType.java:17-22 | the first child whose name has no hint, with every earlier child hinted; none exactly when all are hinted |
| RecordRule.Apply | src/main/java/blue/origami/transpiler/rule/DataType.java:14-27 | a record is built exactly when every child's name has a hint; it then has one name per child, the children's strings in order, each hinted. Otherwise the result is an undefined name at the first unhinted child |

## Left out

- TEnvEntry is not a separate class. A name's entries are a sequence in the map: `push` prepends, `pop` takes the tail and `setHandled` updates one position. Entry identity (two maps sharing one entry object) is not modelled; the environment never shares entries.
- TEnvEntry's source position is not stored, and neither does the constructor at TEnv.java:63-65 store it. The `add` overloads (TEnv.java:100-114) all become `AddEntry` with the value; `key(Class)` is the class name, so a class key is an ordinary name.
- The lazily created `definedMap` (null until the first `addEntry`) is an empty map from the start; every lookup treats the two alike.
- `getHandled(c)` on `Class` objects is modelled as a comparison of a closed set of value kinds. The matcher, choicer, breaker and list predicate are function values; a matcher answering null is `None`.
- The convenience overloads `getLocal(name, c)`, `get(name, c)` and `get(c)` are `GetLocal` and `Get` with the identity matcher, and `findList(Class, ...)` is `FindList` with the class name. They have no separate members.
- Environment.TEnv.FindList: the Java list is mutated in place; the model passes it in and returns the extended list, so aliasing of that list is not modelled.
- Environment.TEnv.TypeTree: reflection loading is replaced by the function `load` (a tag to an optional rule), the debug print on a failed load is omitted, and the exception raised inside a freshly loaded rule is not distinguished. A rule's `apply` is a function that never answers null, and its effects on the environment are not modelled.
- Environment.TEnv.FindParamCode: the match cost of a candidate is a function `cost` to natural numbers, and OCast.STUPID, whose value is not part of this model, is a positive parameter. The argument list is represented only by its length; the untyped-argument check at TEnv.java:305-309 is commented out in the source and not modelled.
- Environment.TEnv.DefineSymbol: the `ArrayIndexOutOfBoundsException` thrown for a key such as `f::` is an `IndexOutOfBounds` error result. Template bodies are the value strings; the `$|key|` expansion at TEnv.java:222-242 is commented out and not modelled. `typeExpr` (TEnv.java:297-302) only calls `typeTree` and has no member of its own.
- TagTy.Joins: Java's `HashSet` iteration order is unspecified, so the general case is modelled in insertion order and its contract states only which tags the result holds and that it has no duplicates. `OArrays.join(ns[0], names)` is taken to put the new tag first. `Ty.tTag` is taken to build a tag type from its arguments.
- TagTy.Accept: `acceptVarTy` with its `VarLogger`, and the acceptance of the non-tag types, are function parameters, because VarTy, VarLogger and the other Ty classes are not part of this model. `mapType` and `strOut` are left out (type mapping for emission and printing).
- TagTy.HasVar, TagTy.IsMutable, TagTy.DupVar and TagTy.FinalTy: the answers of the non-tag core type are function parameters, and the `VarDomain` of `dupVar` is folded into that function.
- MemberAccess.GetCode.AsType: the receiver's typing (`asTypeAt`) is an input, `castType` is recorded as a `Cast` request and not performed, and `checkGetField` and `findGlobalNameHint` are function parameters. Unifying a type variable is recorded as a binding of its number. `emitCode` and `strOut` are emission and printing and are left out.
- Environment.Positioned: `setSourcePosition` (of TCode and TErrorCode, which are not part of this model) is assumed to overwrite any position already set, so an error a rule raised at a child (DataType.java:21) is reported at the tree instead; if the source keeps an existing position, the model's position for such errors differs.
- RecordRule.Apply: `findNameHint` is a function parameter; the rule reads the environment and adds nothing to it.
- Emission (`TCodeSection`), OrigamiException, SugarCode and ASMSdef2 are not part of this model.
