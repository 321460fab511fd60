/** The placement engine of src/hooks/useTierManagement.ts: the initial
    state, the catalog lookups, the location query, and `handleMovePokemon`.
    The engine is a function of the previous list (`setAssignments(prev => …)`),
    so the move is a method from the old list to the new one, proved against
    the specification function `Moved`. */
module TierManagement {
  import opened Wrappers
  import opened Assignments

  /** A catalog entry (`Pokemon` in src/types/index.ts). */
  datatype Pokemon = Pokemon(id: string, name: string, imageUrl: string)

  const Unassigned: string := "unassigned"

  /** `TIERS.map(t => t.id)` */
  const TierIds: seq<string> := ["S", "A", "B", "C", "D"]

  /** `allTierIds`: the tiers in order, then the unassigned pool. */
  const Locations: seq<string> := TierIds + [Unassigned]

  lemma LocationsDistinct()
    ensures |Locations| == 6
    ensures forall i, j :: 0 <= i < j < |Locations| ==> Locations[i] != Locations[j]
  {
  }

  lemma IndexOfLocation(j: nat)
    requires j < |Locations|
    ensures LocationIndex(Locations[j]) == j
    ensures Locations[j] !in Locations[..j]
  {
  }

  /** The place of a location in `allTierIds`. */
  function LocationIndex(loc: string): (k: nat)
    requires loc in Locations
    ensures k < |Locations| && Locations[k] == loc
  {
    if loc == "S" then 0
    else if loc == "A" then 1
    else if loc == "B" then 2
    else if loc == "C" then 3
    else if loc == "D" then 4
    else 5
  }

  /** Positions are dense: at every location the records, in list order,
      have positions 0, 1, 2, … */
  ghost predicate Dense(s: seq<Assignment>)
  {
    forall loc, i :: 0 <= i < |At(s, loc)| ==> At(s, loc)[i].position == i
  }

  /** The shape every list produced by the engine has: every record is at one
      of the six locations, and positions are dense. */
  ghost predicate WellFormed(s: seq<Assignment>)
  {
    (forall a :: a in s ==> a.location in Locations) && Dense(s)
  }

  // ---------------------------------------------------------------------
  // Initial state and catalog queries

  /** The initial and the reset state: one record per catalog entry, in the
      unassigned pool, at its catalog index. */
  function Initial(catalog: seq<Pokemon>): (r: seq<Assignment>)
    ensures |r| == |catalog|
    ensures forall i :: 0 <= i < |r| ==>
      r[i].pokemonId == catalog[i].id && r[i].location == Unassigned && r[i].position == i
  {
    seq(|catalog|, i requires 0 <= i < |catalog| => Assignment(catalog[i].id, Unassigned, i))
  }

  /** `getPokemonById`: the first catalog entry with that id. */
  function FindPokemon(catalog: seq<Pokemon>, id: string): (r: Option<Pokemon>)
    ensures r.None? <==> forall p :: p in catalog ==> p.id != id
    ensures r.Some? ==>
      r.value.id == id &&
      exists i :: 0 <= i < |catalog| && catalog[i] == r.value && forall j :: 0 <= j < i ==> catalog[j].id != id
  {
    if catalog == [] then None
    else if catalog[0].id == id then Some(catalog[0])
    else
      var r := FindPokemon(catalog[1..], id);
      if r.Some? then
        ghost var i :| 0 <= i < |catalog[1..]| && catalog[1..][i] == r.value &&
          forall j :: 0 <= j < i ==> catalog[1..][j].id != id;
        assert catalog[i + 1] == r.value;
        r
      else r
  }

  /** Looks every record up in the catalog, silently dropping the ones whose
      pokemon is not in it. */
  function Resolve(catalog: seq<Pokemon>, t: seq<Assignment>): (r: seq<Pokemon>)
    ensures |r| <= |t|
    ensures forall p :: p in r ==> p in catalog && exists a :: a in t && a.pokemonId == p.id
  {
    if t == [] then []
    else
      var rest := Resolve(catalog, t[1..]);
      assert forall p :: p in rest ==> exists a :: a in t && a.pokemonId == p.id by {
        forall p | p in rest ensures exists a :: a in t && a.pokemonId == p.id {
          var a :| a in t[1..] && a.pokemonId == p.id;
          assert a in t;
        }
      }
      match FindPokemon(catalog, t[0].pokemonId)
      case Some(p) => [p] + rest
      case None => rest
  }

  /** `getPokemonsByLocation`: the catalog entries of the records at `loc`,
      in position order. That the result lists every record at `loc` once,
      in order, is `TierBoard.PokemonsAtInOrder`, for lists in the engine's
      shape whose pokemon are all in the catalog. */
  function PokemonsAt(catalog: seq<Pokemon>, s: seq<Assignment>, loc: string): (r: seq<Pokemon>)
    ensures |r| <= |At(s, loc)|
    ensures forall p :: p in r ==>
      p in catalog && exists a :: a in s && a.location == loc && a.pokemonId == p.id
  {
    var sorted := SortByPosition(At(s, loc));
    var r := Resolve(catalog, sorted);
    assert forall p :: p in r ==> exists a :: a in s && a.location == loc && a.pokemonId == p.id by {
      forall p | p in r ensures exists a :: a in s && a.location == loc && a.pokemonId == p.id {
        var a :| a in sorted && a.pokemonId == p.id;
        assert a in multiset(sorted);
        assert a in At(s, loc);
      }
    }
    r
  }

  // ---------------------------------------------------------------------
  // The move

  /** `newTiersState`: for every location of `allTierIds`, its records sorted
      by position. */
  function Groups(w: seq<Assignment>): (gs: seq<seq<Assignment>>)
    ensures |gs| == |Locations|
    ensures forall k :: 0 <= k < |Locations| ==>
      SortedByPosition(gs[k]) && multiset(gs[k]) == multiset(At(w, Locations[k]))
  {
    seq(|Locations|, k requires 0 <= k < |Locations| => SortByPosition(At(w, Locations[k])))
  }

  /** The groups once the dragged record, moved to `target`, is spliced into
      its target group. */
  function Placed(s: seq<Assignment>, id: string, target: string, index: Option<int>): (gs: seq<seq<Assignment>>)
    requires target in Locations
    requires FindById(s, id).Some?
    ensures |gs| == |Locations|
    ensures forall k :: 0 <= k < |Locations| && Locations[k] != target ==> gs[k] == Groups(Without(s, id))[k]
    ensures var k := LocationIndex(target);
      multiset(gs[k]) == multiset(Groups(Without(s, id))[k]) + multiset{FindById(s, id).value.(location := target)}
  {
    var dragged := FindById(s, id).value.(location := target);
    var gs := Groups(Without(s, id));
    var k := LocationIndex(target);
    InsertAtCounts(gs[k], dragged, index);
    gs[k := InsertAt(gs[k], dragged, index)]
  }

  /** `finalAssignments`: the groups concatenated in order, each renumbered
      from 0. */
  function Flatten(gs: seq<seq<Assignment>>): (r: seq<Assignment>)
    ensures |r| == TotalSize(gs)
  {
    if gs == [] then [] else Flatten(gs[..|gs| - 1]) + Renumbered(gs[|gs| - 1])
  }

  /** The number of records in a list of groups. */
  function TotalSize(gs: seq<seq<Assignment>>): nat
  {
    if gs == [] then 0 else TotalSize(gs[..|gs| - 1]) + |gs[|gs| - 1]|
  }

  /** True when `handleMovePokemon` does not throw: either the dragged pokemon
      has no record (the list is returned as it is) or the target is one of
      the six keys of `newTiersState`. */
  predicate CanMove(s: seq<Assignment>, id: string, target: string)
  {
    target in Locations || FindById(s, id).None?
  }

  /** What `handleMovePokemon(id, target, index)` turns the list into. */
  function Moved(s: seq<Assignment>, id: string, target: string, index: Option<int>): (r: seq<Assignment>)
    requires CanMove(s, id, target)
    ensures FindById(s, id).None? ==> r == s
  {
    if FindById(s, id).None? then s else Flatten(Placed(s, id, target, index))
  }

  /** The `allTierIds.forEach` that fills `newTiersState`: each location's
      records, sorted by position. */
  method GroupByLocation(filtered: seq<Assignment>) returns (tiers: map<string, seq<Assignment>>)
    ensures forall u :: 0 <= u < |Locations| ==>
      Locations[u] in tiers && tiers[Locations[u]] == Groups(filtered)[u]
  {
    tiers := map[];
    var t := 0;
    while t < |Locations|
      invariant 0 <= t <= |Locations|
      invariant forall u :: 0 <= u < t ==> Locations[u] in tiers && tiers[Locations[u]] == Groups(filtered)[u]
    {
      GroupsExtend(tiers, Groups(filtered), t);
      tiers := tiers[Locations[t] := SortByPosition(At(filtered, Locations[t]))];
      t := t + 1;
    }
  }

  /** Storing the group of the next location keeps the groups stored so far. */
  lemma GroupsExtend(tiers: map<string, seq<Assignment>>, gs: seq<seq<Assignment>>, t: nat)
    requires t < |Locations| == |gs|
    requires forall u :: 0 <= u < t ==> Locations[u] in tiers && tiers[Locations[u]] == gs[u]
    ensures var next := tiers[Locations[t] := gs[t]];
      forall u :: 0 <= u <= t ==> Locations[u] in next && next[Locations[u]] == gs[u]
  {
    IndexOfLocation(t);
    forall u | 0 <= u < t
      ensures Locations[u] != Locations[t]
    {
      assert Locations[u] in Locations[..t];
    }
  }

  /** The nested `forEach` that writes `position = index` and pushes every
      record into `finalAssignments`, location by location. */
  method Concatenate(tiers: map<string, seq<Assignment>>, ghost gs: seq<seq<Assignment>>)
    returns (next: seq<Assignment>)
    requires |gs| == |Locations|
    requires forall u :: 0 <= u < |Locations| ==> Locations[u] in tiers && tiers[Locations[u]] == gs[u]
    ensures next == Flatten(gs)
  {
    next := [];
    var t := 0;
    while t < |Locations|
      invariant 0 <= t <= |Locations|
      invariant next == Flatten(gs[..t])
    {
      var group := tiers[Locations[t]];
      var j := 0;
      while j < |group|
        invariant 0 <= j <= |group|
        invariant next == Flatten(gs[..t]) + Renumbered(group)[..j]
      {
        next := next + [group[j].(position := j)];
        j := j + 1;
      }
      assert gs[..t + 1][..t] == gs[..t];
      assert Renumbered(group)[..j] == Renumbered(group);
      t := t + 1;
    }
    assert gs[..|Locations|] == gs;
  }

  /** `prev.find(a => a.pokemonId === draggedId)`, scanning from the front. */
  method FindDragged(prev: seq<Assignment>, draggedId: string) returns (found: Option<Assignment>)
    ensures found == FindById(prev, draggedId)
  {
    var k := 0;
    while k < |prev| && prev[k].pokemonId != draggedId
      invariant 0 <= k <= |prev|
      invariant FindById(prev[k..], draggedId) == FindById(prev, draggedId)
    {
      assert prev[k..][1..] == prev[k + 1..];
      k := k + 1;
    }
    if k == |prev| {
      return None;
    }
    return Some(prev[k]);
  }

  /** The body of the `setAssignments` updater in `handleMovePokemon`: find
      the dragged record, filter it out, regroup, splice or push it into the
      target group, then renumber and concatenate. */
  method MovePokemon(prev: seq<Assignment>, draggedId: string, target: string, index: Option<int>)
    returns (next: seq<Assignment>)
    requires CanMove(prev, draggedId, target)
    ensures next == Moved(prev, draggedId, target, index)
  {
    var found := FindDragged(prev, draggedId);
    if found.None? {
      return prev;
    }
    var dragged := found.value;
    var filtered := Without(prev, draggedId);
    var tiers := GroupByLocation(filtered);

    dragged := dragged.(location := target);
    var g := tiers[target];
    var inserted;
    match index {
      case Some(i) =>
        var c := SpliceStart(i, |g|);
        inserted := g[..c] + [dragged] + g[c..];
        assert inserted == InsertAt(g, dragged, index);
      case None =>
        inserted := g + [dragged];
        assert inserted == InsertAt(g, dragged, index) by {
          assert g[..|g|] == g && g[|g|..] == [];
        }
    }
    TiersArePlaced(prev, draggedId, target, index, tiers);
    tiers := tiers[target := inserted];
    next := Concatenate(tiers, Placed(prev, draggedId, target, index));
  }

  /** Splicing the dragged record into the target's group of the regrouped
      list gives the placed groups. */
  lemma TiersArePlaced(s: seq<Assignment>, id: string, target: string, index: Option<int>,
                       tiers: map<string, seq<Assignment>>)
    requires target in Locations && FindById(s, id).Some?
    requires forall u :: 0 <= u < |Locations| ==>
      Locations[u] in tiers && tiers[Locations[u]] == Groups(Without(s, id))[u]
    ensures target in tiers
    ensures var dragged := FindById(s, id).value.(location := target);
      var next := tiers[target := InsertAt(tiers[target], dragged, index)];
      forall u :: 0 <= u < |Locations| ==>
        Locations[u] in next && next[Locations[u]] == Placed(s, id, target, index)[u]
  {
    var kt := LocationIndex(target);
    var placed := Placed(s, id, target, index);
    var dragged := FindById(s, id).value.(location := target);
    var next := tiers[target := InsertAt(tiers[target], dragged, index)];
    forall u | 0 <= u < |Locations|
      ensures Locations[u] in next && next[Locations[u]] == placed[u]
    {
      if u != kt {
        assert Locations[u] != target by {
          IndexOfLocation(u);
        }
      }
    }
  }
}
