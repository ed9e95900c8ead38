/** Parsing of the symbol keys given to `defineSymbol`: `name`,
    `name:Ret` or `name:T1:...:Tk:Ret`, with Java's `String.indexOf` and
    `String.split` semantics written out. */
module SymbolKeys {

  /** `s.indexOf(c)`: the first index of `c`, or -1. */
  function IndexOf(s: string, c: char): (r: int)
    ensures r == -1 <==> c !in s
    ensures r != -1 ==> 0 <= r < |s| && s[r] == c && c !in s[..r]
  {
    if s == [] then -1
    else if s[0] == c then 0
    else
      var j := IndexOf(s[1..], c);
      if j == -1 then -1
      else
        assert s[..j + 1] == [s[0]] + s[1..][..j];
        j + 1
  }

  /** Every piece between colons, empty pieces included. */
  function SplitAll(s: string): (r: seq<string>)
    ensures |r| >= 1
    decreases |s|
  {
    var i := IndexOf(s, ':');
    if i == -1 then [s] else [s[..i]] + SplitAll(s[i + 1..])
  }

  function DropTrailingEmpty(xs: seq<string>): (r: seq<string>)
    ensures r <= xs
    ensures r != [] ==> r[|r| - 1] != ""
  {
    if xs == [] then []
    else if xs[|xs| - 1] == "" then DropTrailingEmpty(xs[..|xs| - 1])
    else xs
  }

  /** `s.split(":")`: a string without a colon is its own single piece
      (even the empty string); otherwise trailing empty pieces are
      dropped. */
  function JavaSplit(s: string): seq<string> {
    if ':' !in s then [s] else DropTrailingEmpty(SplitAll(s))
  }

  /** Pieces joined with colons. */
  function Join(xs: seq<string>): string
    requires xs != []
  {
    if |xs| == 1 then xs[0] else xs[0] + ":" + Join(xs[1..])
  }

  predicate ColonFree(s: string) {
    ':' !in s
  }

  /** Every piece is free of colons. */
  predicate AllColonFree(xs: seq<string>) {
    xs == [] || (ColonFree(xs[0]) && AllColonFree(xs[1..]))
  }

  /** How `defineSymbol` reads a key. */
  datatype KeyShape =
    | Plain(name: string)                                    // no colon at all
    | Typed(name: string, params: seq<string>, ret: string)  // name:T1:...:Tk:Ret, k >= 0
    | Malformed                                              // split gave no piece at all

  function ParseKey(key: string): KeyShape {
    var loc := IndexOf(key, ':');
    if loc == -1 then Plain(key)
    else ShapeOf(key[..loc], JavaSplit(key[loc + 1..]))
  }

  /** The pieces after the first colon: all but the last are parameter
      types, the last is the return type. */
  function ShapeOf(name: string, tsigs: seq<string>): KeyShape {
    if |tsigs| == 0 then Malformed
    else Typed(name, tsigs[..|tsigs| - 1], tsigs[|tsigs| - 1])
  }

  // ------------------------------------------------------------ lemmas

  lemma {:induction false} IndexOfAfterPrefix(a: string, b: string)
    requires ColonFree(a)
    ensures IndexOf(a + ":" + b, ':') == |a|
  {
    if a != [] {
      assert (a + ":" + b)[1..] == a[1..] + ":" + b;
      IndexOfAfterPrefix(a[1..], b);
    }
  }

  lemma ParseAfterName(name: string, rest: string)
    requires ColonFree(name)
    ensures ParseKey(name + ":" + rest) == ShapeOf(name, JavaSplit(rest))
  {
    var key := name + ":" + rest;
    IndexOfAfterPrefix(name, rest);
    assert key[..|name|] == name;
    assert key[|name| + 1..] == rest;
  }

  lemma SplitAllCons(a: string, b: string)
    requires ColonFree(a)
    ensures SplitAll(a + ":" + b) == [a] + SplitAll(b)
  {
    var s := a + ":" + b;
    IndexOfAfterPrefix(a, b);
    assert s[..|a|] == a;
    assert s[|a| + 1..] == b;
  }

  lemma {:induction false} SplitAllJoin(xs: seq<string>)
    requires xs != [] && AllColonFree(xs)
    ensures SplitAll(Join(xs)) == xs
  {
    if |xs| > 1 {
      SplitAllCons(xs[0], Join(xs[1..]));
      SplitAllJoin(xs[1..]);
      assert xs == [xs[0]] + xs[1..];
    } else {
      assert Join(xs) == xs[0] && ColonFree(xs[0]);
      assert xs == [xs[0]];
    }
  }

  /** Splitting the colon-joined pieces gives the pieces back, as long as
      the last one is not an empty string that `split` would drop. */
  lemma JavaSplitJoin(xs: seq<string>)
    requires xs != [] && AllColonFree(xs)
    requires |xs| == 1 || xs[|xs| - 1] != ""
    ensures JavaSplit(Join(xs)) == xs
  {
    if |xs| > 1 {
      assert Join(xs)[|xs[0]|] == ':';
      SplitAllJoin(xs);
    }
  }

  /** A key without a colon names an untyped template after the whole key. */
  lemma ParsePlain(key: string)
    requires ColonFree(key)
    ensures ParseKey(key) == Plain(key)
  {
  }

  /** `name:T1:...:Tk:Ret` reads back as its name, its parameter types and
      its return type. */
  lemma ParseTyped(name: string, sigs: seq<string>)
    requires ColonFree(name) && sigs != [] && AllColonFree(sigs)
    requires |sigs| == 1 || sigs[|sigs| - 1] != ""
    ensures ParseKey(name + ":" + Join(sigs)) == Typed(name, sigs[..|sigs| - 1], sigs[|sigs| - 1])
  {
    var rest := Join(sigs);
    calc {
      ParseKey(name + ":" + rest);
      { ParseAfterName(name, rest); }
      ShapeOf(name, JavaSplit(rest));
      { JavaSplitJoin(sigs); }
      ShapeOf(name, sigs);
    }
  }

  lemma {:induction false} SplitAllColons(s: string)
    requires forall i :: 0 <= i < |s| ==> s[i] == ':'
    ensures forall i :: 0 <= i < |SplitAll(s)| ==> SplitAll(s)[i] == ""
    decreases |s|
  {
    if s != [] {
      assert IndexOf(s, ':') == 0;
      SplitAllColons(s[1..]);
    }
  }

  lemma {:induction false} DropAllEmpty(xs: seq<string>)
    requires forall i :: 0 <= i < |xs| ==> xs[i] == ""
    ensures DropTrailingEmpty(xs) == []
    decreases |xs|
  {
    if xs != [] {
      DropAllEmpty(xs[..|xs| - 1]);
    }
  }

  /** A key whose signature part is nothing but colons (`f::`) splits into
      no piece at all: reading the return type would index an empty array. */
  lemma ParseOnlyColons(name: string, rest: string)
    requires ColonFree(name) && rest != []
    requires forall i :: 0 <= i < |rest| ==> rest[i] == ':'
    ensures ParseKey(name + ":" + rest) == Malformed
  {
    ParseAfterName(name, rest);
    assert rest[0] == ':';
    SplitAllColons(rest);
    DropAllEmpty(SplitAll(rest));
  }
}
