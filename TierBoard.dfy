/** The state of the `useTierManagement` hook: the catalog it was created
    with and the current list of placement records, with the two updaters
    `handleMovePokemon` and `handleResetTiers`, and the facts about the
    initial state and the location query. */
module TierBoard {
  import opened Wrappers
  import opened Assignments
  import opened TierManagement
  import opened MoveLemmas

  /** The ids of the catalog, in catalog order. */
  function CatalogIds(catalog: seq<Pokemon>): (r: seq<string>)
    ensures |r| == |catalog|
  {
    seq(|catalog|, i requires 0 <= i < |catalog| => catalog[i].id)
  }

  /** No two catalog entries share an id. */
  predicate DistinctIds(catalog: seq<Pokemon>)
  {
    forall i, j :: 0 <= i < j < |catalog| ==> catalog[i].id != catalog[j].id
  }

  class Board {
    const catalog: seq<Pokemon>
    var assignments: seq<Assignment>

    /** Every record is at one of the six locations with dense positions,
        and the records name exactly the pokemon of the catalog. */
    ghost predicate Valid()
      reads this
    {
      WellFormed(assignments) && (set x | x in Ids(assignments)) == (set x | x in CatalogIds(catalog))
    }

    /** The initial `useState` value. */
    constructor(catalog: seq<Pokemon>)
      ensures this.catalog == catalog
      ensures assignments == Initial(catalog)
      ensures Valid()
    {
      this.catalog := catalog;
      assignments := Initial(catalog);
      new;
      InitialIsWellFormed(catalog);
      InitialIds(catalog);
    }

    /** `handleMovePokemon(draggedId, target, index)`. */
    method HandleMovePokemon(draggedId: string, target: string, index: Option<int>)
      requires Valid()
      requires CanMove(assignments, draggedId, target)
      modifies this
      ensures assignments == Moved(old(assignments), draggedId, target, index)
      ensures Valid()
    {
      var next := MovePokemon(assignments, draggedId, target, index);
      assert WellFormed(next) by {
        MoveKeepsWellFormed(assignments, draggedId, target, index);
      }
      assert (set x | x in Ids(next)) == (set x | x in Ids(assignments)) by {
        MoveKeepsIdSet(assignments, draggedId, target, index);
      }
      assignments := next;
    }

    /** `handleResetTiers()`: back to the initial list. */
    method HandleResetTiers()
      modifies this
      ensures assignments == Initial(catalog)
      ensures Valid()
    {
      assignments := Initial(catalog);
      InitialIsWellFormed(catalog);
      InitialIds(catalog);
    }
  }

  // ---------------------------------------------------------------------
  // The initial state

  /** The initial list is in the engine's shape: all records in the
      unassigned pool, at positions 0, 1, 2, … */
  lemma InitialIsWellFormed(catalog: seq<Pokemon>)
    ensures WellFormed(Initial(catalog))
  {
    var s := Initial(catalog);
    forall loc, i | 0 <= i < |At(s, loc)|
      ensures At(s, loc)[i].position == i
    {
      AtUniform(s, Unassigned, loc);
    }
  }

  /** The initial list has one record per catalog entry, in catalog order. */
  lemma InitialIds(catalog: seq<Pokemon>)
    ensures Ids(Initial(catalog)) == CatalogIds(catalog)
  {
  }

  /** After a reset with a catalog of distinct ids, the unassigned pool shows
      the whole catalog in catalog order and every other location is
      empty. */
  lemma ResetShowsCatalog(catalog: seq<Pokemon>, loc: string)
    requires DistinctIds(catalog)
    ensures PokemonsAt(catalog, Initial(catalog), Unassigned) == catalog
    ensures loc != Unassigned ==> PokemonsAt(catalog, Initial(catalog), loc) == []
  {
    var s := Initial(catalog);
    AtUniform(s, Unassigned, loc);
    assert SortByPosition(s) == s by {
      SortOfSortedIsIdentity(s);
    }
    assert s[0..] == s && catalog[0..] == catalog;
    ResolveInitial(catalog, 0);
  }

  /** Looking up the records of the initial list from `k` on gives back the
      catalog from `k` on. */
  lemma ResolveInitial(catalog: seq<Pokemon>, k: nat)
    requires DistinctIds(catalog) && k <= |catalog|
    ensures Resolve(catalog, Initial(catalog)[k..]) == catalog[k..]
  {
    forall i | 0 <= i < |catalog| ensures FindPokemon(catalog, catalog[i].id) == Some(catalog[i]) {
      FindInDistinct(catalog, i);
    }
    ResolveInitialFrom(catalog, k);
  }

  /** The same, for any catalog in which every entry's id from `k` on finds
      that entry. */
  lemma {:induction false} ResolveInitialFrom(catalog: seq<Pokemon>, k: nat)
    requires k <= |catalog|
    requires forall i :: k <= i < |catalog| ==> FindPokemon(catalog, catalog[i].id) == Some(catalog[i])
    ensures Resolve(catalog, Initial(catalog)[k..]) == catalog[k..]
    decreases |catalog| - k
  {
    if k < |catalog| {
      var t := Initial(catalog)[k..];
      assert t[0].pokemonId == catalog[k].id && t[1..] == Initial(catalog)[k + 1..];
      ResolveInitialFrom(catalog, k + 1);
      SuffixCons(catalog, k);
    }
  }

  /** A suffix is its first element followed by the next suffix. */
  lemma SuffixCons<T>(s: seq<T>, k: nat)
    requires k < |s|
    ensures s[k..] == [s[k]] + s[k + 1..]
  {
  }

  /** In a catalog of distinct ids, looking up an entry's id finds that
      entry. */
  lemma FindInDistinct(catalog: seq<Pokemon>, k: nat)
    requires DistinctIds(catalog) && k < |catalog|
    ensures FindPokemon(catalog, catalog[k].id) == Some(catalog[k])
  {
    var f := FindPokemon(catalog, catalog[k].id);
    var i :| 0 <= i < |catalog| && catalog[i] == f.value &&
      forall j :: 0 <= j < i ==> catalog[j].id != catalog[k].id;
    assert i == k;
  }

  // ---------------------------------------------------------------------
  // The location query

  /** Every record whose pokemon is in the catalog shows up in the
      resolution; with `Resolve`'s own contract this is both directions. */
  lemma {:induction false} ResolveKeepsKnown(catalog: seq<Pokemon>, t: seq<Assignment>, a: Assignment)
    requires a in t && FindPokemon(catalog, a.pokemonId).Some?
    ensures FindPokemon(catalog, a.pokemonId).value in Resolve(catalog, t)
  {
    if t[0] != a {
      ResolveKeepsKnown(catalog, t[1..], a);
    }
  }

  /** When every record's pokemon is in the catalog, the resolution keeps
      them all, in order. */
  lemma {:induction false} ResolveAllKnown(catalog: seq<Pokemon>, t: seq<Assignment>)
    requires forall a :: a in t ==> FindPokemon(catalog, a.pokemonId).Some?
    ensures |Resolve(catalog, t)| == |t|
    ensures forall i :: 0 <= i < |t| ==>
      Resolve(catalog, t)[i] == FindPokemon(catalog, t[i].pokemonId).value &&
      Resolve(catalog, t)[i].id == t[i].pokemonId
  {
    if t != [] {
      assert t[0] in t;
      ResolveAllKnown(catalog, t[1..]);
    }
  }

  /** Resolving a concatenation resolves each part. */
  lemma {:induction false} ResolveConcat(catalog: seq<Pokemon>, t1: seq<Assignment>, t2: seq<Assignment>)
    ensures Resolve(catalog, t1 + t2) == Resolve(catalog, t1) + Resolve(catalog, t2)
  {
    if t1 == [] {
      assert t1 + t2 == t2;
    } else {
      assert (t1 + t2)[1..] == t1[1..] + t2;
      ResolveConcat(catalog, t1[1..], t2);
    }
  }

  /** A record whose pokemon is not in the catalog is dropped wherever it
      stands: the records around it resolve as if it were not there, in
      the same order. */
  lemma ResolveDropsUnknown(catalog: seq<Pokemon>, t1: seq<Assignment>, a: Assignment, t2: seq<Assignment>)
    requires FindPokemon(catalog, a.pokemonId).None?
    ensures Resolve(catalog, t1 + [a] + t2) == Resolve(catalog, t1 + t2)
  {
    ResolveConcat(catalog, t1 + [a], t2);
    ResolveConcat(catalog, t1, [a]);
    ResolveConcat(catalog, t1, t2);
    assert Resolve(catalog, [a]) == [] by {
      assert [a][1..] == [];
    }
  }

  /** On a list in the engine's shape whose pokemon are all in the catalog,
      `getPokemonsByLocation(loc)` lists the catalog entries of the records at
      `loc`, in list order, which is position order. */
  lemma PokemonsAtInOrder(catalog: seq<Pokemon>, s: seq<Assignment>, loc: string)
    requires WellFormed(s)
    requires forall a :: a in s ==> FindPokemon(catalog, a.pokemonId).Some?
    ensures var r := PokemonsAt(catalog, s, loc);
      |r| == |At(s, loc)| &&
      forall i :: 0 <= i < |r| ==>
        r[i].id == At(s, loc)[i].pokemonId && r[i] in catalog && At(s, loc)[i].position == i
  {
    var g := At(s, loc);
    assert SortByPosition(g) == g by {
      DenseIsSorted(s, loc);
      SortOfSortedIsIdentity(g);
    }
    ResolveAllKnown(catalog, g);
  }

  /** A location that is not one of the six shows nothing. */
  lemma UnknownLocationIsEmpty(catalog: seq<Pokemon>, s: seq<Assignment>, loc: string)
    requires WellFormed(s) && loc !in Locations
    ensures PokemonsAt(catalog, s, loc) == []
  {
    assert At(s, loc) == [] by {
      if At(s, loc) != [] {
        assert At(s, loc)[0] in At(s, loc);
      }
    }
  }

  // ---------------------------------------------------------------------
  // Moves and the catalog

  /** A move keeps the set of pokemon that have a record. */
  lemma MoveKeepsIdSet(s: seq<Assignment>, id: string, target: string, index: Option<int>)
    requires CanMove(s, id, target) && WellFormed(s)
    ensures (set x | x in Ids(Moved(s, id, target, index))) == (set x | x in Ids(s))
  {
    var before := Ids(s);
    var after := Ids(Moved(s, id, target, index));
    assert multiset(after) == if id in before then multiset(before)[id := 1] else multiset(before) by {
      MoveKeepsIds(s, id, target, index);
    }
    SameElements(before, after, id);
  }

  /** Setting the count of an element already present to one, or changing
      nothing, keeps the set of elements. */
  lemma SameElements(before: seq<string>, after: seq<string>, id: string)
    requires multiset(after) == if id in before then multiset(before)[id := 1] else multiset(before)
    ensures (set x | x in after) == (set x | x in before)
  {
    forall x ensures x in after <==> x in before {
      assert x in after <==> x in multiset(after);
      assert x in before <==> x in multiset(before);
    }
  }
}
