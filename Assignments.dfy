/** The placement records of the tier list (`PokemonAssignment` in
    src/hooks/useTierManagement.ts) and the list operations the engine is
    built from: filtering by location or by pokemon, the stable sort by
    position (`Array.prototype.sort` is stable), renumbering, and the
    `splice`/`push` insertion. */
module Assignments {
  import opened Wrappers

  datatype Assignment = Assignment(pokemonId: string, location: string, position: int)

  /** The pokemon ids of a list of records, in list order. */
  function Ids(s: seq<Assignment>): (r: seq<string>)
    ensures |r| == |s|
  {
    seq(|s|, i requires 0 <= i < |s| => s[i].pokemonId)
  }

  /** `s.filter(a => a.location === loc)` */
  function At(s: seq<Assignment>, loc: string): (r: seq<Assignment>)
    ensures |r| <= |s|
    ensures forall a :: a in r ==> a in s && a.location == loc
  {
    if s == [] then []
    else (if s[0].location == loc then [s[0]] else []) + At(s[1..], loc)
  }

  /** `s.filter(a => a.pokemonId !== id)` */
  function Without(s: seq<Assignment>, id: string): (r: seq<Assignment>)
    ensures |r| <= |s|
    ensures forall a :: a in r ==> a in s && a.pokemonId != id
  {
    if s == [] then []
    else (if s[0].pokemonId != id then [s[0]] else []) + Without(s[1..], id)
  }

  /** The records whose location is one of `locs`. */
  function Within(s: seq<Assignment>, locs: seq<string>): (r: seq<Assignment>)
  {
    if s == [] then []
    else (if s[0].location in locs then [s[0]] else []) + Within(s[1..], locs)
  }

  /** `s.filter(x => x !== id)` on plain ids. */
  function RemoveId(s: seq<string>, id: string): (r: seq<string>)
    ensures forall x :: x in r ==> x in s && x != id
  {
    if s == [] then []
    else (if s[0] != id then [s[0]] else []) + RemoveId(s[1..], id)
  }

  /** `s.find(a => a.pokemonId === id)`: a record of that pokemon, when there
      is one (the first, by `FindByIdIsFirst`). */
  function FindById(s: seq<Assignment>, id: string): (r: Option<Assignment>)
    ensures r.None? <==> forall a :: a in s ==> a.pokemonId != id
    ensures r.Some? ==> r.value in s && r.value.pokemonId == id
  {
    if s == [] then None
    else if s[0].pokemonId == id then Some(s[0])
    else FindById(s[1..], id)
  }

  /** `find` returns the first match. */
  lemma {:induction false} FindByIdIsFirst(s: seq<Assignment>, id: string)
    requires FindById(s, id).Some?
    ensures exists i :: 0 <= i < |s| && s[i] == FindById(s, id).value &&
                        (forall j :: 0 <= j < i ==> s[j].pokemonId != id)
  {
    if s[0].pokemonId != id {
      FindByIdIsFirst(s[1..], id);
      var i :| 0 <= i < |s[1..]| && s[1..][i] == FindById(s[1..], id).value &&
        forall j :: 0 <= j < i ==> s[1..][j].pokemonId != id;
      assert s[i + 1] == FindById(s, id).value;
      forall j | 0 <= j < i + 1
        ensures s[j].pokemonId != id
      {
        if j > 0 {
          assert s[j] == s[1..][j - 1];
        }
      }
    } else {
      assert s[0] == FindById(s, id).value;
    }
  }

  // ---------------------------------------------------------------------
  // Stable sort by position

  ghost predicate SortedByPosition(s: seq<Assignment>)
  {
    forall i, j :: 0 <= i < j < |s| ==> s[i].position <= s[j].position
  }

  /** Puts `x` in front of the first element whose position is not smaller,
      so that `x` stays ahead of the elements of equal position. */
  function InsertByPosition(x: Assignment, t: seq<Assignment>): (r: seq<Assignment>)
    requires SortedByPosition(t)
    ensures SortedByPosition(r)
    ensures multiset(r) == multiset(t) + multiset{x}
  {
    if t == [] || x.position <= t[0].position then
      ConsSorted(x, t);
      [x] + t
    else
      var rest := InsertByPosition(x, t[1..]);
      assert t == [t[0]] + t[1..];
      HeadBelowRest(x, t, rest);
      ConsSorted(t[0], rest);
      [t[0]] + rest
  }

  /** A sorted list stays sorted with an element in front that is not above
      any of it. */
  lemma ConsSorted(h: Assignment, r: seq<Assignment>)
    requires SortedByPosition(r)
    requires r == [] || h.position <= r[0].position
    ensures SortedByPosition([h] + r)
  {
  }

  lemma HeadBelowRest(x: Assignment, t: seq<Assignment>, rest: seq<Assignment>)
    requires SortedByPosition(t) && t != [] && t[0].position < x.position
    requires SortedByPosition(rest)
    requires multiset(rest) == multiset(t[1..]) + multiset{x}
    ensures rest == [] || t[0].position <= rest[0].position
  {
    if rest != [] {
      assert rest[0] in multiset(rest);
      if rest[0] != x {
        assert rest[0] in t[1..];
      }
    }
  }

  /** `s.slice().sort((a, b) => a.position - b.position)`: the stable sort. */
  function SortByPosition(s: seq<Assignment>): (r: seq<Assignment>)
    ensures SortedByPosition(r)
    ensures multiset(r) == multiset(s)
  {
    if s == [] then []
    else
      assert s == [s[0]] + s[1..];
      InsertByPosition(s[0], SortByPosition(s[1..]))
  }

  /** The records with one given position, in list order. */
  function WithPosition(s: seq<Assignment>, p: int): (r: seq<Assignment>)
  {
    if s == [] then []
    else (if s[0].position == p then [s[0]] else []) + WithPosition(s[1..], p)
  }

  /** Inserting `x` adds it in front of the records of its own position. */
  lemma {:induction false} InsertWithPosition(x: Assignment, t: seq<Assignment>, p: int)
    requires SortedByPosition(t)
    ensures WithPosition(InsertByPosition(x, t), p) ==
      (if x.position == p then [x] else []) + WithPosition(t, p)
  {
    if t == [] || x.position <= t[0].position {
      var r := [x] + t;
      assert InsertByPosition(x, t) == r && r[0] == x && r[1..] == t;
    } else {
      var rest := InsertByPosition(x, t[1..]);
      var r := [t[0]] + rest;
      assert InsertByPosition(x, t) == r && r[0] == t[0] && r[1..] == rest;
      InsertWithPosition(x, t[1..], p);
      assert SortedByPosition(t[1..]);
      if x.position == p {
        assert t[0].position < p;
      }
    }
  }

  /** The sort is stable: the records that share a position keep their
      relative order. */
  lemma {:induction false} SortIsStable(s: seq<Assignment>, p: int)
    ensures WithPosition(SortByPosition(s), p) == WithPosition(s, p)
  {
    if s != [] {
      SortIsStable(s[1..], p);
      InsertWithPosition(s[0], SortByPosition(s[1..]), p);
    }
  }

  /** Sorting a list that is already in position order changes nothing. */
  lemma {:induction false} SortOfSortedIsIdentity(s: seq<Assignment>)
    requires SortedByPosition(s)
    ensures SortByPosition(s) == s
  {
    if s != [] {
      assert SortedByPosition(s[1..]);
      SortOfSortedIsIdentity(s[1..]);
      assert s == [s[0]] + s[1..];
    }
  }

  // ---------------------------------------------------------------------
  // Renumbering and insertion

  /** `forEach((a, index) => { a.position = index })` */
  function Renumbered(g: seq<Assignment>): (r: seq<Assignment>)
    ensures |r| == |g|
    ensures forall i :: 0 <= i < |g| ==>
      r[i].pokemonId == g[i].pokemonId && r[i].location == g[i].location && r[i].position == i
  {
    seq(|g|, i requires 0 <= i < |g| => g[i].(position := i))
  }

  /** Where `splice(start, 0, x)` puts `x` in a list of length `len`:
      a negative start counts from the end, and the result is clamped to
      `0..len`. */
  function SpliceStart(start: int, len: nat): (c: nat)
    ensures c <= len
    ensures 0 <= start <= len ==> c == start
  {
    if start < 0 then (if len + start < 0 then 0 else len + start)
    else if start < len then start else len
  }

  /** Where `x` lands: at the splice start when an index is given, at the end
      (`push`) when it is `undefined`. */
  function InsertIndex(index: Option<int>, len: nat): (c: nat)
    ensures c <= len
  {
    match index
    case Some(i) => SpliceStart(i, len)
    case None => len
  }

  /** `g.splice(index, 0, x)` when `index` is given, `g.push(x)` otherwise. */
  function InsertAt<T>(g: seq<T>, x: T, index: Option<int>): (r: seq<T>)
    ensures |r| == |g| + 1
    ensures var c := InsertIndex(index, |g|);
      r[c] == x && r[..c] == g[..c] && r[c + 1..] == g[c..]
  {
    var c := InsertIndex(index, |g|);
    g[..c] + [x] + g[c..]
  }

  /** The insertion adds exactly `x`. */
  lemma InsertAtCounts<T>(g: seq<T>, x: T, index: Option<int>)
    ensures multiset(InsertAt(g, x, index)) == multiset(g) + multiset{x}
  {
    var c := InsertIndex(index, |g|);
    assert InsertAt(g, x, index) == g[..c] + [x] + g[c..];
    assert g == g[..c] + g[c..];
  }

  // ---------------------------------------------------------------------
  // Facts about the filters

  /** Nothing at `loc` is filtered out. */
  lemma {:induction false} AtKeepsAll(s: seq<Assignment>, loc: string, a: Assignment)
    requires a in s && a.location == loc
    ensures a in At(s, loc)
  {
    if s[0] != a {
      AtKeepsAll(s[1..], loc, a);
    }
  }

  lemma {:induction false} AtConcat(a: seq<Assignment>, b: seq<Assignment>, loc: string)
    ensures At(a + b, loc) == At(a, loc) + At(b, loc)
  {
    if a == [] {
      assert a + b == b;
    } else {
      var h := if a[0].location == loc then [a[0]] else [];
      calc {
        At(a + b, loc);
        { assert (a + b)[0] == a[0]; assert (a + b)[1..] == a[1..] + b; }
        h + At(a[1..] + b, loc);
        { AtConcat(a[1..], b, loc); }
        h + (At(a[1..], loc) + At(b, loc));
        (h + At(a[1..], loc)) + At(b, loc);
      }
    }
  }

  lemma {:induction false} WithoutConcat(a: seq<Assignment>, b: seq<Assignment>, id: string)
    ensures Without(a + b, id) == Without(a, id) + Without(b, id)
  {
    if a == [] {
      assert a + b == b;
    } else {
      var h := if a[0].pokemonId != id then [a[0]] else [];
      calc {
        Without(a + b, id);
        { assert (a + b)[0] == a[0]; assert (a + b)[1..] == a[1..] + b; }
        h + Without(a[1..] + b, id);
        { WithoutConcat(a[1..], b, id); }
        h + (Without(a[1..], id) + Without(b, id));
        (h + Without(a[1..], id)) + Without(b, id);
      }
    }
  }

  lemma {:induction false} WithinConcat(a: seq<Assignment>, b: seq<Assignment>, locs: seq<string>)
    ensures Within(a + b, locs) == Within(a, locs) + Within(b, locs)
  {
    if a == [] {
      assert a + b == b;
    } else {
      var h := if a[0].location in locs then [a[0]] else [];
      calc {
        Within(a + b, locs);
        { assert (a + b)[0] == a[0]; assert (a + b)[1..] == a[1..] + b; }
        h + Within(a[1..] + b, locs);
        { WithinConcat(a[1..], b, locs); }
        h + (Within(a[1..], locs) + Within(b, locs));
        (h + Within(a[1..], locs)) + Within(b, locs);
      }
    }
  }

  lemma {:induction false} RemoveIdConcat(a: seq<string>, b: seq<string>, id: string)
    ensures RemoveId(a + b, id) == RemoveId(a, id) + RemoveId(b, id)
  {
    if a == [] {
      assert a + b == b;
    } else {
      var h := if a[0] != id then [a[0]] else [];
      calc {
        RemoveId(a + b, id);
        { assert (a + b)[0] == a[0]; assert (a + b)[1..] == a[1..] + b; }
        h + RemoveId(a[1..] + b, id);
        { RemoveIdConcat(a[1..], b, id); }
        h + (RemoveId(a[1..], id) + RemoveId(b, id));
        (h + RemoveId(a[1..], id)) + RemoveId(b, id);
      }
    }
  }

  /** Filtering by a location every record has keeps them all; filtering by
      one no record has keeps none. */
  lemma {:induction false} AtUniform(g: seq<Assignment>, loc: string, other: string)
    requires forall a :: a in g ==> a.location == loc
    ensures At(g, loc) == g
    ensures other != loc ==> At(g, other) == []
  {
    if g != [] {
      AtUniform(g[1..], loc, other);
      assert g == [g[0]] + g[1..];
    }
  }

  lemma {:induction false} RemoveIdAbsent(s: seq<string>, id: string)
    requires id !in s
    ensures RemoveId(s, id) == s
  {
    if s != [] {
      RemoveIdAbsent(s[1..], id);
      assert s == [s[0]] + s[1..];
    }
  }

  lemma {:induction false} IdsWithout(s: seq<Assignment>, id: string)
    ensures Ids(Without(s, id)) == RemoveId(Ids(s), id)
  {
    if s != [] {
      var head := if s[0].pokemonId != id then [s[0]] else [];
      calc {
        Ids(Without(s, id));
        Ids(head + Without(s[1..], id));
        { IdsConcat(head, Without(s[1..], id)); }
        Ids(head) + Ids(Without(s[1..], id));
        { IdsWithout(s[1..], id); }
        Ids(head) + RemoveId(Ids(s[1..]), id);
        { assert Ids(s)[1..] == Ids(s[1..]); }
        RemoveId(Ids(s), id);
      }
    }
  }

  lemma {:induction false} AtWithoutCommute(s: seq<Assignment>, loc: string, id: string)
    ensures At(Without(s, id), loc) == Without(At(s, loc), id)
  {
    if s != [] {
      AtWithoutCommute(s[1..], loc, id);
      var head := if s[0].pokemonId != id then [s[0]] else [];
      AtConcat(head, Without(s[1..], id), loc);
      var here := if s[0].location == loc then [s[0]] else [];
      WithoutConcat(here, At(s[1..], loc), id);
    }
  }

  lemma {:induction false} WithoutKeepsSorted(s: seq<Assignment>, id: string)
    requires SortedByPosition(s)
    ensures SortedByPosition(Without(s, id))
  {
    if s != [] {
      assert SortedByPosition(s[1..]);
      WithoutKeepsSorted(s[1..], id);
      var rest := Without(s[1..], id);
      forall a | a in rest
        ensures s[0].position <= a.position
      {
        var k :| 0 <= k < |s[1..]| && s[1..][k] == a;
        assert s[k + 1] == a;
      }
    }
  }

  lemma IdsConcat(a: seq<Assignment>, b: seq<Assignment>)
    ensures Ids(a + b) == Ids(a) + Ids(b)
  {
  }

  lemma {:induction false} InsertKeepsIds(x: Assignment, t: seq<Assignment>)
    requires SortedByPosition(t)
    ensures multiset(Ids(InsertByPosition(x, t))) == multiset(Ids(t)) + multiset{x.pokemonId}
  {
    if t == [] || x.position <= t[0].position {
      calc {
        multiset(Ids(InsertByPosition(x, t)));
        multiset(Ids([x] + t));
        { IdsConcat([x], t); }
        multiset(Ids([x]) + Ids(t));
        multiset(Ids([x])) + multiset(Ids(t));
        { assert Ids([x]) == [x.pokemonId]; }
        multiset{x.pokemonId} + multiset(Ids(t));
      }
    } else {
      var rest := InsertByPosition(x, t[1..]);
      var h := Ids([t[0]]);
      calc {
        multiset(Ids(InsertByPosition(x, t)));
        multiset(Ids([t[0]] + rest));
        { IdsConcat([t[0]], rest); }
        multiset(h + Ids(rest));
        multiset(h) + multiset(Ids(rest));
        { assert SortedByPosition(t[1..]); InsertKeepsIds(x, t[1..]); }
        multiset(h) + (multiset(Ids(t[1..])) + multiset{x.pokemonId});
        { UnionAssoc(multiset(h), multiset(Ids(t[1..])), multiset{x.pokemonId}); }
        multiset(h) + multiset(Ids(t[1..])) + multiset{x.pokemonId};
        multiset(h + Ids(t[1..])) + multiset{x.pokemonId};
        { assert t == [t[0]] + t[1..]; IdsConcat([t[0]], t[1..]); }
        multiset(Ids(t)) + multiset{x.pokemonId};
      }
    }
  }

  lemma UnionAssoc(a: multiset<string>, b: multiset<string>, c: multiset<string>)
    ensures a + (b + c) == a + b + c
  {
    forall e
      ensures (a + (b + c))[e] == (a + b + c)[e]
    {
    }
  }

  /** Sorting keeps the pokemon ids, counted with multiplicity. */
  lemma {:induction false} SortKeepsIds(s: seq<Assignment>)
    ensures multiset(Ids(SortByPosition(s))) == multiset(Ids(s))
  {
    if s != [] {
      calc {
        multiset(Ids(SortByPosition(s)));
        multiset(Ids(InsertByPosition(s[0], SortByPosition(s[1..]))));
        { InsertKeepsIds(s[0], SortByPosition(s[1..])); }
        multiset(Ids(SortByPosition(s[1..]))) + multiset{s[0].pokemonId};
        { SortKeepsIds(s[1..]); }
        multiset(Ids(s[1..])) + multiset{s[0].pokemonId};
        { assert Ids(s) == [s[0].pokemonId] + Ids(s[1..]); }
        multiset(Ids(s));
      }
    }
  }

  /** Adding location `loc` to the accepted ones adds exactly the records at
      `loc`, as far as their ids are concerned. */
  lemma {:induction false} WithinStep(s: seq<Assignment>, locs: seq<string>, loc: string)
    requires loc !in locs
    ensures multiset(Ids(Within(s, locs + [loc]))) ==
      multiset(Ids(Within(s, locs))) + multiset(Ids(At(s, loc)))
  {
    if s != [] {
      WithinStep(s[1..], locs, loc);
      var h1 := if s[0].location in locs + [loc] then [s[0]] else [];
      var h2 := if s[0].location in locs then [s[0]] else [];
      var h3 := if s[0].location == loc then [s[0]] else [];
      IdsConcat(h1, Within(s[1..], locs + [loc]));
      IdsConcat(h2, Within(s[1..], locs));
      IdsConcat(h3, At(s[1..], loc));
    }
  }

  lemma {:induction false} WithinWithoutCommute(s: seq<Assignment>, locs: seq<string>, id: string)
    ensures Within(Without(s, id), locs) == Without(Within(s, locs), id)
  {
    if s != [] {
      WithinWithoutCommute(s[1..], locs, id);
      var head := if s[0].pokemonId != id then [s[0]] else [];
      WithinConcat(head, Without(s[1..], id), locs);
      var here := if s[0].location in locs then [s[0]] else [];
      WithoutConcat(here, Within(s[1..], locs), id);
    }
  }

  lemma {:induction false} RemoveIdCounts(s: seq<string>, id: string)
    ensures multiset(RemoveId(s, id)) == multiset(s)[id := 0]
  {
    if s != [] {
      RemoveIdCounts(s[1..], id);
      calc {
        multiset(s);
        { assert s == [s[0]] + s[1..]; }
        multiset{s[0]} + multiset(s[1..]);
      }
    }
  }

  lemma WithinWithout(s: seq<Assignment>, locs: seq<string>, id: string)
    ensures multiset(Ids(Within(Without(s, id), locs))) == multiset(Ids(Within(s, locs)))[id := 0]
  {
    WithinWithoutCommute(s, locs, id);
    IdsWithout(Within(s, locs), id);
    RemoveIdCounts(Ids(Within(s, locs)), id);
  }
}
