/** What `handleMovePokemon` guarantees, proved about its specification
    `TierManagement.Moved`. */
module MoveLemmas {
  import opened Wrappers
  import opened Assignments
  import opened TierManagement

  /** Each group holds only records of its own location. */
  ghost predicate GroupsPlaced(gs: seq<seq<Assignment>>)
  {
    |gs| <= |Locations| && forall k, a :: 0 <= k < |gs| && a in gs[k] ==> a.location == Locations[k]
  }

  /** The pokemon ids of a list of groups, counted with multiplicity. */
  ghost function Bag(gs: seq<seq<Assignment>>, n: nat): multiset<string>
    requires n <= |gs|
  {
    if n == 0 then multiset{} else Bag(gs, n - 1) + multiset(Ids(gs[n - 1]))
  }

  // ---------------------------------------------------------------------
  // Small facts

  lemma RenumberedKeepsLocations(g: seq<Assignment>, loc: string)
    requires forall a :: a in g ==> a.location == loc
    ensures forall a :: a in Renumbered(g) ==> a.location == loc
    ensures Ids(Renumbered(g)) == Ids(g)
  {
    forall a | a in Renumbered(g) ensures a.location == loc {
      var i :| 0 <= i < |g| && Renumbered(g)[i] == a;
      assert g[i] in g;
    }
  }

  lemma IdsInsertAt(g: seq<Assignment>, x: Assignment, index: Option<int>)
    ensures Ids(InsertAt(g, x, index)) == InsertAt(Ids(g), x.pokemonId, index)
  {
    var c := InsertIndex(index, |g|);
    assert InsertAt(g, x, index) == g[..c] + [x] + g[c..];
    assert Ids(g[..c] + [x] + g[c..]) == Ids(g)[..c] + [x.pokemonId] + Ids(g)[c..];
  }

  lemma RemoveIdInsert(rest: seq<string>, id: string, index: Option<int>)
    requires id !in rest
    ensures RemoveId(InsertAt(rest, id, index), id) == rest
  {
    var c := InsertIndex(index, |rest|);
    var front, back := rest[..c], rest[c..];
    assert id !in front && id !in back;
    calc {
      RemoveId(InsertAt(rest, id, index), id);
      RemoveId(front + [id] + back, id);
      { RemoveIdConcat(front + [id], back, id); }
      RemoveId(front + [id], id) + RemoveId(back, id);
      { RemoveIdConcat(front, [id], id); }
      RemoveId(front, id) + RemoveId([id], id) + RemoveId(back, id);
      { RemoveIdAbsent(front, id); RemoveIdAbsent(back, id); assert RemoveId([id], id) == []; }
      front + back;
      { assert rest == front + back; }
      rest;
    }
  }

  /** The sorted group of the records that are not the dragged pokemon's has
      no record of the dragged pokemon. */
  lemma SortedRestLacksId(w: seq<Assignment>, id: string, loc: string)
    requires forall a :: a in w ==> a.pokemonId != id
    ensures id !in Ids(SortByPosition(At(w, loc)))
  {
    var g := At(w, loc);
    var sg := SortByPosition(g);
    forall i | 0 <= i < |sg|
      ensures Ids(sg)[i] != id
    {
      assert sg[i] in multiset(g);
    }
  }

  lemma WithoutLacksId(s: seq<Assignment>, id: string)
    ensures forall a :: a in Without(s, id) ==> a.pokemonId != id
  {
  }

  /** Records of one location with positions 0..n-1 are determined by their
      pokemon ids. */
  lemma UniformEqual(a: seq<Assignment>, b: seq<Assignment>, loc: string)
    requires forall x :: x in a ==> x.location == loc
    requires forall x :: x in b ==> x.location == loc
    requires forall i :: 0 <= i < |a| ==> a[i].position == i
    requires forall i :: 0 <= i < |b| ==> b[i].position == i
    requires Ids(a) == Ids(b)
    ensures a == b
  {
    assert |a| == |Ids(a)| == |b|;
    forall i | 0 <= i < |a| ensures a[i] == b[i] {
      assert a[i] in a && b[i] in b;
      assert a[i].pokemonId == Ids(a)[i];
    }
  }

  /** A list with dense positions is in position order at every location. */
  lemma DenseIsSorted(s: seq<Assignment>, loc: string)
    requires Dense(s)
    ensures SortedByPosition(At(s, loc))
  {
  }

  lemma WithinAll(s: seq<Assignment>, locs: seq<string>)
    requires forall a :: a in s ==> a.location in locs
    ensures Within(s, locs) == s
  {
    if s != [] {
      WithinAll(s[1..], locs);
      assert s == [s[0]] + s[1..];
    }
  }

  // ---------------------------------------------------------------------
  // Flattening

  /** Concatenating placed groups and filtering by the location of group `k`
      gives back that group, renumbered. */
  lemma {:induction false} FlattenAt(gs: seq<seq<Assignment>>, k: nat)
    requires GroupsPlaced(gs) && k < |gs|
    ensures At(Flatten(gs), Locations[k]) == Renumbered(gs[k])
  {
    var n := |gs| - 1;
    var init := gs[..n];
    FlattenStep(gs, Locations[k]);
    assert Locations[n] !in Locations[..n] by {
      IndexOfLocation(n);
    }
    if k == n {
      assert At(Flatten(init), Locations[k]) == [] by {
        FlattenAtOther(init, Locations[k]);
      }
    } else {
      assert Locations[k] in Locations[..n];
      assert At(Flatten(init), Locations[k]) == Renumbered(gs[k]) by {
        FlattenAt(init, k);
      }
    }
  }

  /** A location that has no group has no records once concatenated. */
  lemma {:induction false} FlattenAtOther(gs: seq<seq<Assignment>>, loc: string)
    requires GroupsPlaced(gs) && loc !in Locations[..|gs|]
    ensures At(Flatten(gs), loc) == []
  {
    if gs != [] {
      var n := |gs| - 1;
      FlattenStep(gs, loc);
      assert Locations[..|gs|] == Locations[..n] + [Locations[n]];
      FlattenAtOther(gs[..n], loc);
    }
  }

  lemma FlattenStep(gs: seq<seq<Assignment>>, loc: string)
    requires GroupsPlaced(gs) && gs != []
    ensures GroupsPlaced(gs[..|gs| - 1])
    ensures At(Flatten(gs), loc) ==
      At(Flatten(gs[..|gs| - 1]), loc) + if loc == Locations[|gs| - 1] then Renumbered(gs[|gs| - 1]) else []
  {
    var n := |gs| - 1;
    var last := Renumbered(gs[n]);
    assert At(Flatten(gs), loc) == At(Flatten(gs[..n]), loc) + At(last, loc) by {
      AtConcat(Flatten(gs[..n]), last, loc);
    }
    assert At(last, loc) == if loc == Locations[n] then last else [] by {
      RenumberedKeepsLocations(gs[n], Locations[n]);
      AtUniform(last, Locations[n], loc);
    }
    assert GroupsPlaced(gs[..n]);
  }

  lemma {:induction false} FlattenLocations(gs: seq<seq<Assignment>>)
    requires GroupsPlaced(gs)
    ensures forall a :: a in Flatten(gs) ==> a.location in Locations
  {
    if gs != [] {
      var n := |gs| - 1;
      assert GroupsPlaced(gs[..n]);
      FlattenLocations(gs[..n]);
      RenumberedKeepsLocations(gs[n], Locations[n]);
    }
  }

  lemma {:induction false} FlattenIds(gs: seq<seq<Assignment>>)
    ensures multiset(Ids(Flatten(gs))) == Bag(gs, |gs|)
  {
    if gs != [] {
      var n := |gs| - 1;
      FlattenIds(gs[..n]);
      BagAgree(gs[..n], gs, n);
      IdsConcat(Flatten(gs[..n]), Renumbered(gs[n]));
      RenumberedIds(gs[n]);
    }
  }

  /** The bag of a prefix depends on that prefix only. */
  lemma {:induction false} BagAgree(gs: seq<seq<Assignment>>, hs: seq<seq<Assignment>>, n: nat)
    requires n <= |gs| && n <= |hs|
    requires forall i :: 0 <= i < n ==> gs[i] == hs[i]
    ensures Bag(gs, n) == Bag(hs, n)
  {
    if n > 0 {
      BagAgree(gs, hs, n - 1);
    }
  }

  lemma Rearrange(b: multiset<string>, a: multiset<string>, x: multiset<string>, y: multiset<string>, z: multiset<string>)
    requires b + y == a + z
    ensures (b + x) + y == (a + x) + z
  {
    forall e
      ensures ((b + x) + y)[e] == ((a + x) + z)[e]
    {
      assert (b + y)[e] == (a + z)[e];
    }
  }

  /** Replacing one group changes the bag of every prefix that holds it by
      exactly that group's ids. */
  lemma {:induction false} BagUpdate(gs: seq<seq<Assignment>>, k: nat, g: seq<Assignment>, n: nat)
    requires k < n <= |gs|
    ensures Bag(gs[k := g], n) + multiset(Ids(gs[k])) == Bag(gs, n) + multiset(Ids(g))
  {
    var hs := gs[k := g];
    var y, z := multiset(Ids(gs[k])), multiset(Ids(g));
    if n == k + 1 {
      BagAgree(hs, gs, k);
      Swap(Bag(gs, k), y, z);
    } else {
      BagUpdate(gs, k, g, n - 1);
      assert hs[n - 1] == gs[n - 1];
      Rearrange(Bag(hs, n - 1), Bag(gs, n - 1), multiset(Ids(gs[n - 1])), y, z);
    }
  }

  lemma Swap(b: multiset<string>, y: multiset<string>, z: multiset<string>)
    ensures (b + z) + y == (b + y) + z
  {
    forall e
      ensures ((b + z) + y)[e] == ((b + y) + z)[e]
    {
    }
  }

  lemma BagOfGroups(w: seq<Assignment>, n: nat)
    requires n <= |Locations|
    ensures Bag(Groups(w), n) == multiset(Ids(Within(w, Locations[..n])))
  {
    LocationsDistinct();
    BagOfSortedGroups(w, Locations, Groups(w), n);
  }

  /** Groups of distinct locations hold, between them, the records at those
      locations. */
  lemma {:induction false} BagOfSortedGroups(w: seq<Assignment>, locs: seq<string>, gs: seq<seq<Assignment>>, n: nat)
    requires n <= |locs| == |gs|
    requires forall k :: 0 <= k < |gs| ==> gs[k] == SortByPosition(At(w, locs[k]))
    requires forall i, j :: 0 <= i < j < |locs| ==> locs[i] != locs[j]
    ensures Bag(gs, n) == multiset(Ids(Within(w, locs[..n])))
  {
    if n == 0 {
      WithinEmpty(w);
    } else {
      var m := n - 1;
      var here := multiset(Ids(At(w, locs[m])));
      var before := multiset(Ids(Within(w, locs[..m])));
      assert Bag(gs, m) == before by {
        BagOfSortedGroups(w, locs, gs, m);
      }
      assert multiset(Ids(gs[m])) == here by {
        SortKeepsIds(At(w, locs[m]));
      }
      assert multiset(Ids(Within(w, locs[..n]))) == before + here by {
        WithinPrefix(w, locs, n);
      }
    }
  }

  lemma WithinPrefix(w: seq<Assignment>, locs: seq<string>, n: nat)
    requires 0 < n <= |locs|
    requires forall i, j :: 0 <= i < j < |locs| ==> locs[i] != locs[j]
    ensures multiset(Ids(Within(w, locs[..n]))) ==
      multiset(Ids(Within(w, locs[..n - 1]))) + multiset(Ids(At(w, locs[n - 1])))
  {
    assert locs[n - 1] !in locs[..n - 1];
    assert locs[..n] == locs[..n - 1] + [locs[n - 1]];
    WithinStep(w, locs[..n - 1], locs[n - 1]);
  }

  lemma {:induction false} WithinEmpty(w: seq<Assignment>)
    ensures Within(w, []) == []
  {
    if w != [] {
      WithinEmpty(w[1..]);
    }
  }

  lemma {:induction false} FlattenCongruent(gs: seq<seq<Assignment>>, hs: seq<seq<Assignment>>)
    requires |gs| == |hs|
    requires forall k :: 0 <= k < |gs| ==> Renumbered(gs[k]) == Renumbered(hs[k])
    ensures Flatten(gs) == Flatten(hs)
  {
    if gs != [] {
      FlattenCongruent(gs[..|gs| - 1], hs[..|hs| - 1]);
    }
  }

  lemma PlacedIsPlaced(s: seq<Assignment>, id: string, target: string, index: Option<int>)
    requires target in Locations && FindById(s, id).Some?
    ensures GroupsPlaced(Placed(s, id, target, index))
  {
    var ps := Placed(s, id, target, index);
    forall k: int, a: Assignment | 0 <= k < |ps| && a in ps[k]
      ensures a.location == Locations[k]
    {
      PlacedGroupPlaced(s, id, target, index, k);
    }
  }

  lemma PlacedGroupPlaced(s: seq<Assignment>, id: string, target: string, index: Option<int>, k: nat)
    requires target in Locations && FindById(s, id).Some? && k < |Locations|
    ensures forall a :: a in Placed(s, id, target, index)[k] ==> a.location == Locations[k]
  {
    var w := Without(s, id);
    var g := Groups(w)[k];
    var dragged := FindById(s, id).value.(location := target);
    assert forall a: Assignment :: a in g ==> a.location == Locations[k] by {
      SortedGroupPlaced(At(w, Locations[k]), Locations[k]);
    }
    if k == LocationIndex(target) {
      assert Placed(s, id, target, index)[k] == InsertAt(g, dragged, index);
      InsertAtMembers(g, dragged, index);
    } else {
      assert Placed(s, id, target, index)[k] == g;
    }
  }

  lemma SortedGroupPlaced(g: seq<Assignment>, loc: string)
    requires forall a :: a in g ==> a.location == loc
    ensures forall a :: a in SortByPosition(g) ==> a.location == loc
  {
    forall a | a in SortByPosition(g)
      ensures a.location == loc
    {
      assert a in multiset(SortByPosition(g));
    }
  }

  lemma InsertAtMembers<T>(g: seq<T>, x: T, index: Option<int>)
    ensures forall a :: a in InsertAt(g, x, index) ==> a == x || a in g
  {
    InsertAtCounts(g, x, index);
    forall a | a in InsertAt(g, x, index)
      ensures a == x || a in g
    {
      assert a in multiset(InsertAt(g, x, index));
    }
  }

  // ---------------------------------------------------------------------
  // The properties of a move

  /** A move whose dragged pokemon has no record returns the list unchanged. */
  lemma MoveOfAbsentIsIdentity(s: seq<Assignment>, id: string, target: string, index: Option<int>)
    requires forall a :: a in s ==> a.pokemonId != id
    ensures Moved(s, id, target, index) == s
  {
  }

  /** Location by location, after a move: positions are 0..n-1 in list order;
      every location outside the six is empty; every other location holds
      its previous records minus the dragged pokemon's, in (stable) position
      order; the target holds those too, with the dragged pokemon spliced in
      at the index (clamped like `splice`) or appended. */
  lemma MoveGroups(s: seq<Assignment>, id: string, target: string, index: Option<int>, loc: string)
    requires target in Locations && FindById(s, id).Some?
    ensures var got := At(Moved(s, id, target, index), loc);
      var rest := Ids(SortByPosition(At(Without(s, id), loc)));
      (forall i :: 0 <= i < |got| ==> got[i].position == i) &&
      (loc !in Locations ==> got == []) &&
      (loc in Locations && loc != target ==> Ids(got) == rest) &&
      (loc == target ==> Ids(got) == InsertAt(rest, id, index))
  {
    MovedAt(s, id, target, index, loc);
    if loc in Locations {
      var k := LocationIndex(loc);
      var g := Placed(s, id, target, index)[k];
      RenumberedIds(g);
      PlacedGroup(s, id, target, index, k);
      IndexOfLocation(LocationIndex(target));
    }
  }

  /** The records of one location after a move are its placed group,
      renumbered. */
  lemma MovedAt(s: seq<Assignment>, id: string, target: string, index: Option<int>, loc: string)
    requires target in Locations && FindById(s, id).Some?
    ensures loc in Locations ==>
      At(Moved(s, id, target, index), loc) == Renumbered(Placed(s, id, target, index)[LocationIndex(loc)])
    ensures loc !in Locations ==> At(Moved(s, id, target, index), loc) == []
  {
    var ps := Placed(s, id, target, index);
    PlacedIsPlaced(s, id, target, index);
    if loc in Locations {
      var k := LocationIndex(loc);
      FlattenAt(ps, k);
    } else {
      assert Locations[..|ps|] == Locations;
      FlattenAtOther(ps, loc);
    }
  }

  lemma RenumberedIds(g: seq<Assignment>)
    ensures Ids(Renumbered(g)) == Ids(g)
    ensures forall i :: 0 <= i < |Renumbered(g)| ==> Renumbered(g)[i].position == i
  {
  }

  /** The ids of each placed group. */
  lemma PlacedGroup(s: seq<Assignment>, id: string, target: string, index: Option<int>, k: nat)
    requires target in Locations && FindById(s, id).Some? && k < |Locations|
    ensures var rest := Ids(SortByPosition(At(Without(s, id), Locations[k])));
      Ids(Placed(s, id, target, index)[k]) ==
        if k == LocationIndex(target) then InsertAt(rest, id, index) else rest
  {
    var w := Without(s, id);
    var gs := Groups(w);
    var kt := LocationIndex(target);
    var dragged := FindById(s, id).value.(location := target);
    var ps := Placed(s, id, target, index);
    assert ps == gs[kt := InsertAt(gs[kt], dragged, index)];
    assert gs[k] == SortByPosition(At(w, Locations[k]));
    if k == kt {
      assert ps[k] == InsertAt(gs[k], dragged, index);
      IdsInsertAt(gs[k], dragged, index);
    } else {
      assert ps[k] == gs[k];
    }
  }

  /** The ids after a move: the dragged pokemon has exactly one record, and
      every other pokemon keeps its records at the six locations (records
      elsewhere are dropped). */
  lemma MovedIds(s: seq<Assignment>, id: string, target: string, index: Option<int>)
    requires target in Locations && FindById(s, id).Some?
    ensures multiset(Ids(Moved(s, id, target, index))) == multiset(Ids(Within(s, Locations)))[id := 1]
  {
    var w := Without(s, id);
    var gs := Groups(w);
    var kt := LocationIndex(target);
    var dragged := FindById(s, id).value.(location := target);
    var ps := Placed(s, id, target, index);
    var before := multiset(Ids(gs[kt]));
    assert ps == gs[kt := InsertAt(gs[kt], dragged, index)];
    var n := |Locations|;
    assert Bag(ps, n) == Bag(gs, n) + multiset{id} by {
      BagUpdate(gs, kt, InsertAt(gs[kt], dragged, index), n);
      assert multiset(Ids(InsertAt(gs[kt], dragged, index))) == before + multiset{id} by {
        IdsInsertAt(gs[kt], dragged, index);
        InsertAtCounts(Ids(gs[kt]), id, index);
      }
      Cancel(Bag(ps, n), Bag(gs, n), before, multiset{id});
    }
    assert Bag(gs, n) == multiset(Ids(Within(s, Locations)))[id := 0] by {
      BagOfGroups(w, n);
      assert Locations[..n] == Locations;
      WithinWithout(s, Locations, id);
    }
    calc {
      multiset(Ids(Moved(s, id, target, index)));
      { FlattenIds(ps); }
      Bag(ps, n);
      multiset(Ids(Within(s, Locations)))[id := 0] + multiset{id};
      { AddOne(multiset(Ids(Within(s, Locations))), id); }
      multiset(Ids(Within(s, Locations)))[id := 1];
    }
  }

  lemma Cancel(p: multiset<string>, b: multiset<string>, g: multiset<string>, y: multiset<string>)
    requires p + g == b + (g + y)
    ensures p == b + y
  {
    forall e
      ensures p[e] == (b + y)[e]
    {
      assert (p + g)[e] == (b + (g + y))[e];
    }
  }

  lemma AddOne(m: multiset<string>, x: string)
    ensures m[x := 0] + multiset{x} == m[x := 1]
  {
    var a, b := m[x := 0] + multiset{x}, m[x := 1];
    forall e
      ensures a[e] == b[e]
    {
    }
  }

  /** Where the dragged pokemon ends up: it has exactly one record, at the
      target, at the requested index clamped to the length of the target
      list without it (or last when no index is given). */
  lemma MovePlacesDragged(s: seq<Assignment>, id: string, target: string, index: Option<int>)
    requires target in Locations && FindById(s, id).Some?
    ensures var r := Moved(s, id, target, index);
      var got := At(r, target);
      |got| >= 1 &&
      var c := InsertIndex(index, |got| - 1);
      got[c].pokemonId == id && got[c].position == c &&
      multiset(Ids(r))[id] == 1 &&
      forall a :: a in r && a.pokemonId == id ==> a.location == target && a.position == c
  {
    DraggedAtIndex(s, id, target, index);
    DraggedOnlyThere(s, id, target, index);
    assert multiset(Ids(Within(s, Locations)))[id := 1][id] == 1 by {
      MovedIds(s, id, target, index);
    }
    MovedIds(s, id, target, index);
  }

  lemma DraggedAtIndex(s: seq<Assignment>, id: string, target: string, index: Option<int>)
    requires target in Locations && FindById(s, id).Some?
    ensures var got := At(Moved(s, id, target, index), target);
      var rest := Ids(SortByPosition(At(Without(s, id), target)));
      |got| == |rest| + 1 &&
      var c := InsertIndex(index, |rest|);
      got[c].pokemonId == id && got[c].position == c &&
      Ids(got) == rest[..c] + [id] + rest[c..] && id !in rest
  {
    var w := Without(s, id);
    WithoutLacksId(s, id);
    MoveGroups(s, id, target, index, target);
    var got := At(Moved(s, id, target, index), target);
    var rest := Ids(SortByPosition(At(w, target)));
    SortedRestLacksId(w, id, target);
    var c := InsertIndex(index, |rest|);
    assert Ids(got) == InsertAt(rest, id, index) == rest[..c] + [id] + rest[c..];
    assert got[c].pokemonId == Ids(got)[c];
  }

  lemma DraggedOnlyThere(s: seq<Assignment>, id: string, target: string, index: Option<int>)
    requires target in Locations && FindById(s, id).Some?
    ensures var rest := Ids(SortByPosition(At(Without(s, id), target)));
      forall a :: a in Moved(s, id, target, index) && a.pokemonId == id ==>
        a.location == target && a.position == InsertIndex(index, |rest|)
  {
    var r := Moved(s, id, target, index);
    var rest := Ids(SortByPosition(At(Without(s, id), target)));
    var c := InsertIndex(index, |rest|);
    forall a | a in r && a.pokemonId == id
      ensures a.location == target && a.position == c
    {
      DraggedRecord(s, id, target, index, a);
    }
  }

  lemma DraggedRecord(s: seq<Assignment>, id: string, target: string, index: Option<int>, a: Assignment)
    requires target in Locations && FindById(s, id).Some?
    requires a in Moved(s, id, target, index) && a.pokemonId == id
    ensures var rest := Ids(SortByPosition(At(Without(s, id), target)));
      a.location == target && a.position == InsertIndex(index, |rest|)
  {
    var r := Moved(s, id, target, index);
    var w := Without(s, id);
    assert a.location in Locations by {
      PlacedIsPlaced(s, id, target, index);
      FlattenLocations(Placed(s, id, target, index));
    }
    var here := At(r, a.location);
    assert a in here by {
      AtKeepsAll(r, a.location, a);
    }
    var j :| 0 <= j < |here| && here[j] == a;
    assert Ids(here)[j] == id;
    assert a.location == target by {
      MoveGroups(s, id, target, index, a.location);
      WithoutLacksId(s, id);
      SortedRestLacksId(w, id, a.location);
    }
    var rest := Ids(SortByPosition(At(w, target)));
    var c := InsertIndex(index, |rest|);
    assert j == c && here[c].position == c by {
      DraggedAtIndex(s, id, target, index);
      OnlyAtSplice(rest, id, c);
    }
  }

  /** In `rest` with `x` spliced in at `c`, `x` occurs only at `c` when `rest`
      lacks it. */
  lemma OnlyAtSplice(rest: seq<string>, x: string, c: nat)
    requires x !in rest && c <= |rest|
    ensures forall j :: 0 <= j < |rest| + 1 && (rest[..c] + [x] + rest[c..])[j] == x ==> j == c
  {
    var t := rest[..c] + [x] + rest[c..];
    forall j | 0 <= j < |t| && j != c
      ensures t[j] != x
    {
      if j < c {
        assert t[j] == rest[j];
      } else {
        assert t[j] == rest[j - 1];
      }
    }
  }

  /** A move keeps the six-location shape and dense positions. */
  lemma MoveKeepsWellFormed(s: seq<Assignment>, id: string, target: string, index: Option<int>)
    requires CanMove(s, id, target) && WellFormed(s)
    ensures WellFormed(Moved(s, id, target, index))
  {
    if FindById(s, id).Some? {
      var r := Moved(s, id, target, index);
      PlacedIsPlaced(s, id, target, index);
      FlattenLocations(Placed(s, id, target, index));
      forall loc, i | 0 <= i < |At(r, loc)|
        ensures At(r, loc)[i].position == i
      {
        MoveGroups(s, id, target, index, loc);
      }
    }
  }

  /** When every record is at one of the six locations, a move keeps the
      pokemon ids and only collapses the dragged pokemon's records into one;
      with one record per pokemon, the ids and the length are unchanged. */
  lemma MoveKeepsIds(s: seq<Assignment>, id: string, target: string, index: Option<int>)
    requires CanMove(s, id, target)
    requires forall a :: a in s ==> a.location in Locations
    ensures var r := Moved(s, id, target, index);
      multiset(Ids(r)) == if id in Ids(s) then multiset(Ids(s))[id := 1] else multiset(Ids(s))
    ensures multiset(Ids(s))[id] <= 1 ==>
      multiset(Ids(Moved(s, id, target, index))) == multiset(Ids(s)) &&
      |Moved(s, id, target, index)| == |s|
  {
    var r := Moved(s, id, target, index);
    if FindById(s, id).Some? {
      MovedIds(s, id, target, index);
      WithinAll(s, Locations);
      var i :| 0 <= i < |s| && s[i] == FindById(s, id).value;
      assert Ids(s)[i] == id;
    }
    if multiset(Ids(s))[id] <= 1 {
      assert |r| == |Ids(r)| == |multiset(Ids(r))| == |multiset(Ids(s))| == |Ids(s)|;
    }
  }

  /** Records other than the dragged pokemon's keep their relative order at
      every location, when that location was in position order before (every
      list the engine produces is). */
  lemma MoveKeepsOrder(s: seq<Assignment>, id: string, target: string, index: Option<int>, loc: string)
    requires target in Locations && FindById(s, id).Some?
    requires loc in Locations && SortedByPosition(At(s, loc))
    ensures RemoveId(Ids(At(Moved(s, id, target, index), loc)), id) == RemoveId(Ids(At(s, loc)), id)
  {
    var w := Without(s, id);
    MoveGroups(s, id, target, index, loc);
    WithoutLacksId(s, id);
    SortedRestLacksId(w, id, loc);
    var rest := Ids(SortByPosition(At(w, loc)));
    AtWithoutCommute(s, loc, id);
    WithoutKeepsSorted(At(s, loc), id);
    SortOfSortedIsIdentity(Without(At(s, loc), id));
    IdsWithout(At(s, loc), id);
    assert rest == RemoveId(Ids(At(s, loc)), id);
    if loc == target {
      RemoveIdInsert(rest, id, index);
    } else {
      RemoveIdAbsent(rest, id);
    }
  }

  /** Repeating a move with the same arguments changes nothing. */
  lemma MoveIsIdempotent(s: seq<Assignment>, id: string, target: string, index: Option<int>)
    requires CanMove(s, id, target)
    ensures CanMove(Moved(s, id, target, index), id, target)
    ensures Moved(Moved(s, id, target, index), id, target, index) == Moved(s, id, target, index)
  {
    if FindById(s, id).Some? {
      var r := Moved(s, id, target, index);
      assert FindById(r, id).Some? by {
        DraggedAtIndex(s, id, target, index);
        var rest := Ids(SortByPosition(At(Without(s, id), target)));
        var got := At(r, target);
        assert got[InsertIndex(index, |rest|)] in got;
      }
      var ps1 := Placed(s, id, target, index);
      var ps2 := Placed(r, id, target, index);
      forall k | 0 <= k < |Locations|
        ensures Renumbered(ps1[k]) == Renumbered(ps2[k])
      {
        var loc := Locations[k];
        IndexOfLocation(k);
        SameGroupAfterRepeat(s, id, target, index, loc);
        MovedAt(s, id, target, index, loc);
        MovedAt(r, id, target, index, loc);
      }
      FlattenCongruent(ps1, ps2);
    }
  }

  lemma SameGroupAfterRepeat(s: seq<Assignment>, id: string, target: string, index: Option<int>, loc: string)
    requires target in Locations && FindById(s, id).Some?
    requires FindById(Moved(s, id, target, index), id).Some?
    ensures var r := Moved(s, id, target, index);
      At(Moved(r, id, target, index), loc) == At(r, loc)
  {
    var r := Moved(s, id, target, index);
    var r2 := Moved(r, id, target, index);
    MoveGroups(s, id, target, index, loc);
    MoveGroups(r, id, target, index, loc);
    if loc in Locations {
      var w := Without(s, id);
      var rest := Ids(SortByPosition(At(w, loc)));
      WithoutLacksId(s, id);
      SortedRestLacksId(w, id, loc);
      // the second move sees the first move's group, already in order
      assert SortedByPosition(At(r, loc));
      AtWithoutCommute(r, loc, id);
      WithoutKeepsSorted(At(r, loc), id);
      SortOfSortedIsIdentity(Without(At(r, loc), id));
      IdsWithout(At(r, loc), id);
      var rest2 := Ids(SortByPosition(At(Without(r, id), loc)));
      assert rest2 == RemoveId(Ids(At(r, loc)), id);
      if loc == target {
        RemoveIdInsert(rest, id, index);
      } else {
        RemoveIdAbsent(rest, id);
      }
      assert rest2 == rest;
      UniformEqual(At(r2, loc), At(r, loc), loc);
    }
  }
}
