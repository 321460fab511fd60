/** src/hooks/useRowManager.ts: the ordered, bounded list of position rows
    `{id, name, color}`. It covers the validation of saved rows, the initial
    clamp to between `MIN_ROWS` and `MAX_ROWS` rows, `addRow` with its search
    for a free `row-k` id, `removeRow`, the two field updates, the reset and
    `getRowLabel`. */
module RowManager {
  import opened Wrappers
  import PositionLabels

  datatype RowDef = RowDef(id: string, name: string, color: string)

  /** One entry of the parsed saved list (`Partial<RowDef>`). A field is `None`
      when it is absent or not a string; a `null` entry has every field
      `None`. */
  datatype SavedRow = SavedRow(id: Option<string>, name: Option<string>, color: Option<string>)

  const MinRows: nat := 5
  const MaxRows: nat := 9

  function RowIds(rows: seq<RowDef>): (r: seq<string>)
    ensures |r| == |rows|
  {
    seq(|rows|, i requires 0 <= i < |rows| => rows[i].id)
  }

  predicate UniqueIds(rows: seq<RowDef>)
  {
    forall i, j :: 0 <= i < j < |rows| ==> rows[i].id != rows[j].id
  }

  /** The shape `addRow` and `removeRow` look after: distinct ids and a row
      count within the bounds. */
  predicate Sound(rows: seq<RowDef>)
  {
    UniqueIds(rows) && MinRows <= |rows| <= MaxRows
  }

  // ---------------------------------------------------------------------
  // Decimal numerals, for the `row-${idx}` ids and the `行 ${n}` names

  function DigitChar(d: nat): char
    requires d < 10
  {
    "0123456789"[d]
  }

  /** The decimal numeral of `n`, as a template literal prints it. */
  function NatToString(n: nat): (s: string)
    ensures 1 <= |s|
    ensures n < 10 <==> |s| == 1
  {
    if n < 10 then [DigitChar(n)] else NatToString(n / 10) + [DigitChar(n % 10)]
  }

  /** Different numbers have different numerals. */
  lemma {:induction false} NatToStringInjective(a: nat, b: nat)
    requires NatToString(a) == NatToString(b)
    ensures a == b
  {
    if 10 <= a {
      var s := NatToString(a);
      assert s[..|s| - 1] == NatToString(a / 10) && s[|s| - 1] == DigitChar(a % 10);
      assert s[..|s| - 1] == NatToString(b / 10) && s[|s| - 1] == DigitChar(b % 10);
      NatToStringInjective(a / 10, b / 10);
    }
  }

  /** `row-${idx}` */
  function RowId(k: nat): (r: string)
    ensures |r| > 4 && r[..4] == "row-" && r[4..] == NatToString(k)
  {
    "row-" + NatToString(k)
  }

  lemma RowIdInjective(a: nat, b: nat)
    requires RowId(a) == RowId(b)
    ensures a == b
  {
    assert RowId(a)[4..] == NatToString(a) && RowId(b)[4..] == NatToString(b);
    NatToStringInjective(a, b);
  }

  /** `行 ${n}` */
  function RowName(n: nat): (r: string)
    ensures |r| > 2 && r[..2] == "行 " && r[2..] == NatToString(n)
  {
    "行 " + NatToString(n)
  }

  // ---------------------------------------------------------------------
  // Defaults and loading

  /** `defaultRows`: one row per position, coloured round the palette. */
  function DefaultRows(palette: seq<string>): (r: seq<RowDef>)
    requires |palette| > 0
    ensures |r| == |PositionLabels.Positions| == MinRows
    ensures RowIds(r) == PositionLabels.PositionIds
    ensures UniqueIds(r)
  {
    var ps := PositionLabels.Positions;
    seq(|ps|, i requires 0 <= i < |ps| => RowDef(ps[i].id, ps[i].name, palette[i % |palette|]))
  }

  /** The `filter` of `loadSaved`: the entries with a string id and a string
      name, in order. */
  function Complete(saved: seq<SavedRow>): (r: seq<SavedRow>)
    ensures |r| <= |saved|
    ensures forall e :: e in r <==> e in saved && e.id.Some? && e.name.Some?
  {
    if saved == [] then []
    else
      var rest := Complete(saved[1..]);
      assert forall e :: e in saved <==> e == saved[0] || e in saved[1..];
      if saved[0].id.Some? && saved[0].name.Some? then [saved[0]] + rest else rest
  }

  /** The colour a loaded row gets: its own when that is a non-empty string,
      otherwise the palette colour at its index after the filter. */
  function LoadedColor(color: Option<string>, i: nat, palette: seq<string>): (c: string)
    requires |palette| > 0
    ensures c == palette[i % |palette|] || (color == Some(c) && c != "")
    ensures color.Some? && color.value != "" ==> c == color.value
  {
    if color.Some? && color.value != "" then color.value else palette[i % |palette|]
  }

  /** `loadSaved` on already parsed input. */
  function LoadSaved(saved: seq<SavedRow>, palette: seq<string>): (r: seq<RowDef>)
    requires |palette| > 0
    ensures |r| == |Complete(saved)|
  {
    var c := Complete(saved);
    seq(|c|, i requires 0 <= i < |c| =>
      assert c[i] in c;
      RowDef(c[i].id.value, c[i].name.value, LoadedColor(c[i].color, i, palette)))
  }

  /** The initial `rows`: the loaded rows, cut to `MAX_ROWS`, when at least
      `MIN_ROWS` of them survive validation; the defaults otherwise.
      `None` stands for nothing stored, unparsable text or a non-array. */
  function InitialRows(saved: Option<seq<SavedRow>>, palette: seq<string>): (r: seq<RowDef>)
    requires |palette| > 0
    ensures MinRows <= |r| <= MaxRows
    ensures saved.None? ==> r == DefaultRows(palette)
    ensures saved.Some? ==>
      var loaded := LoadSaved(saved.value, palette);
      if |loaded| < MinRows then r == DefaultRows(palette)
      else r <= loaded && |r| == if |loaded| < MaxRows then |loaded| else MaxRows
  {
    if saved.Some? && |LoadSaved(saved.value, palette)| >= MinRows then
      var loaded := LoadSaved(saved.value, palette);
      if |loaded| <= MaxRows then loaded else loaded[..MaxRows]
    else DefaultRows(palette)
  }

  /** What the save effect writes (`JSON.stringify(rows)`), read back as
      parsed entries. */
  function ToSavedRows(rows: seq<RowDef>): (r: seq<SavedRow>)
    ensures |r| == |rows|
    ensures forall i :: 0 <= i < |rows| ==>
      r[i] == SavedRow(Some(rows[i].id), Some(rows[i].name), Some(rows[i].color))
  {
    seq(|rows|, i requires 0 <= i < |rows| =>
      SavedRow(Some(rows[i].id), Some(rows[i].name), Some(rows[i].color)))
  }

  /** Filtering a list whose entries are all complete keeps it whole. */
  lemma {:induction false} CompleteOfComplete(saved: seq<SavedRow>)
    requires forall e :: e in saved ==> e.id.Some? && e.name.Some?
    ensures Complete(saved) == saved
  {
    if saved != [] {
      CompleteOfComplete(saved[1..]);
      assert saved == [saved[0]] + saved[1..];
    }
  }

  /** Loading what was saved gives the same rows back, provided no colour is
      empty. */
  lemma SaveLoadRoundTrip(rows: seq<RowDef>, palette: seq<string>)
    requires |palette| > 0
    requires forall r :: r in rows ==> r.color != ""
    ensures LoadSaved(ToSavedRows(rows), palette) == rows
  {
    var saved := ToSavedRows(rows);
    assert Complete(saved) == saved by {
      CompleteOfComplete(saved);
    }
    forall i | 0 <= i < |rows|
      ensures LoadSaved(saved, palette)[i] == rows[i]
    {
      assert rows[i] in rows;
    }
  }

  lemma {:induction false} CompleteConcat(a: seq<SavedRow>, b: seq<SavedRow>)
    ensures Complete(a + b) == Complete(a) + Complete(b)
  {
    if a == [] {
      assert a + b == b;
    } else {
      assert (a + b)[1..] == a[1..] + b;
      CompleteConcat(a[1..], b);
    }
  }

  /** An entry without a string id or name is dropped without a trace: the
      rows loaded around it, colours included, are as if it were not there. */
  lemma LoadSkipsIncomplete(before: seq<SavedRow>, e: SavedRow, after: seq<SavedRow>, palette: seq<string>)
    requires |palette| > 0 && (e.id.None? || e.name.None?)
    ensures LoadSaved(before + [e] + after, palette) == LoadSaved(before + after, palette)
  {
    var c := Complete(before + after);
    assert Complete(before + [e] + after) == c by {
      CompleteConcat(before + [e], after);
      CompleteConcat(before, [e]);
      CompleteConcat(before, after);
      assert Complete([e]) == [];
    }
    SameCompleteSameLoad(before + [e] + after, before + after, palette);
  }

  lemma SameCompleteSameLoad(a: seq<SavedRow>, b: seq<SavedRow>, palette: seq<string>)
    requires |palette| > 0 && Complete(a) == Complete(b)
    ensures LoadSaved(a, palette) == LoadSaved(b, palette)
  {
  }

  /** A complete entry, wherever it stands, becomes the loaded row at its
      index among the complete entries: it keeps its id and name, and its
      colour when that is a non-empty string; a missing or empty colour is
      replaced by the palette colour at that index, not at its index among
      the saved entries. */
  lemma LoadColorsByLoadedIndex(before: seq<SavedRow>, e: SavedRow, after: seq<SavedRow>, palette: seq<string>)
    requires |palette| > 0 && e.id.Some? && e.name.Some?
    ensures var loaded := LoadSaved(before + [e] + after, palette);
      var k := |Complete(before)|;
      k < |loaded| &&
      loaded[k].id == e.id.value && loaded[k].name == e.name.value &&
      loaded[k].color == if e.color.Some? && e.color.value != "" then e.color.value else palette[k % |palette|]
  {
    CompleteConcat(before + [e], after);
    CompleteConcat(before, [e]);
    assert Complete([e]) == [e];
  }

  /** ... so a saved list within the bounds is also the next initial list. */
  lemma InitialRowsRoundTrip(rows: seq<RowDef>, palette: seq<string>)
    requires |palette| > 0 && MinRows <= |rows| <= MaxRows
    requires forall r :: r in rows ==> r.color != ""
    ensures InitialRows(Some(ToSavedRows(rows)), palette) == rows
  {
    SaveLoadRoundTrip(rows, palette);
  }

  // ---------------------------------------------------------------------
  // addRow

  /** `id` is what the `while (existing.has(newId))` loop settles on: the
      first of row-1, row-2, … that no row has. */
  ghost predicate IsNextRowId(id: string, rows: seq<RowDef>)
  {
    exists k :: 1 <= k && id == RowId(k) && id !in RowIds(rows) &&
      forall j :: 1 <= j < k ==> RowId(j) in RowIds(rows)
  }

  /** The row `addRow` appends to a list of `n` rows. */
  function NewRow(id: string, n: nat, palette: seq<string>): (r: RowDef)
    requires |palette| > 0
    ensures r.id == id && r.name == RowName(n + 1) && r.color in palette
  {
    RowDef(id, RowName(n + 1), palette[n % |palette|])
  }

  /** The id search of `addRow`. It ends because every id it passes over
      belongs to a different existing row. */
  method NextRowId(prev: seq<RowDef>) returns (newId: string)
    ensures IsNextRowId(newId, prev)
  {
    var existing := set r | r in prev :: r.id;
    assert forall x :: x in existing <==> x in RowIds(prev) by {
      forall x ensures x in existing <==> x in RowIds(prev) {
        if x in RowIds(prev) {
          var i :| 0 <= i < |prev| && RowIds(prev)[i] == x;
          assert prev[i] in prev;
        }
        if x in existing {
          var r :| r in prev && r.id == x;
          var i :| 0 <= i < |prev| && prev[i] == r;
          assert RowIds(prev)[i] == x;
        }
      }
    }
    var idx: nat := 1;
    newId := RowId(idx);
    while newId in existing
      invariant 1 <= idx && newId == RowId(idx)
      invariant forall j :: 1 <= j < idx ==> RowId(j) in existing
      decreases |existing| + 1 - idx
    {
      assert idx <= |existing| by {
        Pigeonhole(idx, existing);
      }
      idx := idx + 1;
      newId := RowId(idx);
    }
    assert newId !in RowIds(prev) && forall j :: 1 <= j < idx ==> RowId(j) in RowIds(prev);
  }

  /** The ids row-1 … row-(k-1). */
  ghost function RowIdsBelow(k: nat): (s: set<string>)
    ensures forall x :: x in s ==> exists j :: 1 <= j < k && x == RowId(j)
  {
    if k <= 1 then {} else RowIdsBelow(k - 1) + {RowId(k - 1)}
  }

  /** There are k-1 of them, since different numbers give different ids. */
  lemma {:induction false} RowIdsBelowSize(k: nat)
    requires 1 <= k
    ensures |RowIdsBelow(k)| == k - 1
  {
    if k > 1 {
      RowIdsBelowSize(k - 1);
      assert RowId(k - 1) !in RowIdsBelow(k - 1) by {
        if RowId(k - 1) in RowIdsBelow(k - 1) {
          var j :| 1 <= j < k - 1 && RowId(k - 1) == RowId(j);
          RowIdInjective(j, k - 1);
        }
      }
    }
  }

  /** A set holding row-1 … row-n has at least n elements. */
  lemma Pigeonhole(n: nat, existing: set<string>)
    requires 1 <= n && forall j :: 1 <= j <= n ==> RowId(j) in existing
    ensures n <= |existing|
  {
    var below := RowIdsBelow(n + 1);
    assert |below| == n by {
      RowIdsBelowSize(n + 1);
    }
    assert below <= existing by {
      forall x | x in below ensures x in existing {
        var j :| 1 <= j < n + 1 && x == RowId(j);
      }
    }
    SubsetSize(below, existing);
  }

  /** A subset is no larger than its superset. */
  lemma SubsetSize(a: set<string>, b: set<string>)
    requires a <= b
    ensures |a| <= |b|
  {
    assert b == a + (b - a);
    assert a * (b - a) == {};
  }

  /** Appending a row with a fresh id to a sound list that has room keeps
      it sound. */
  lemma AddKeepsSound(prev: seq<RowDef>, id: string, palette: seq<string>)
    requires |palette| > 0 && Sound(prev) && |prev| < MaxRows && IsNextRowId(id, prev)
    ensures Sound(prev + [NewRow(id, |prev|, palette)])
  {
    var next := prev + [NewRow(id, |prev|, palette)];
    forall i, j | 0 <= i < j < |next|
      ensures next[i].id != next[j].id
    {
      if j == |prev| {
        assert RowIds(prev)[i] == next[i].id;
      }
    }
  }

  /** The id `addRow` picks is determined by the existing ids. */
  lemma NextRowIdIsUnique(a: string, b: string, rows: seq<RowDef>)
    requires IsNextRowId(a, rows) && IsNextRowId(b, rows)
    ensures a == b
  {
    var ka :| 1 <= ka && a == RowId(ka) && a !in RowIds(rows) &&
      forall j :: 1 <= j < ka ==> RowId(j) in RowIds(rows);
    var kb :| 1 <= kb && b == RowId(kb) && b !in RowIds(rows) &&
      forall j :: 1 <= j < kb ==> RowId(j) in RowIds(rows);
    assert RowId(ka) !in RowIds(rows) && RowId(kb) !in RowIds(rows);
  }

  /** On the default rows the first added row is `row-1`. */
  lemma FirstAddedRowId(palette: seq<string>)
    requires |palette| > 0
    ensures IsNextRowId("row-1", DefaultRows(palette))
  {
    assert RowId(1) == "row-1";
    assert "row-1" !in PositionLabels.PositionIds;
  }

  // ---------------------------------------------------------------------
  // removeRow, the field updates and the lookup

  /** `rows.filter(r => r.id !== id)` */
  function RowsWithout(rows: seq<RowDef>, id: string): (r: seq<RowDef>)
    ensures |r| <= |rows|
    ensures forall x :: x in r <==> x in rows && x.id != id
  {
    if rows == [] then []
    else
      var rest := RowsWithout(rows[1..], id);
      assert forall x :: x in rows <==> x == rows[0] || x in rows[1..];
      if rows[0].id != id then [rows[0]] + rest else rest
  }

  /** The updater of `removeRow`: nothing changes at `MIN_ROWS` rows or
      fewer; otherwise every row with that id goes. */
  function Removed(rows: seq<RowDef>, id: string): (r: seq<RowDef>)
    ensures |rows| <= MinRows ==> r == rows
    ensures MinRows < |rows| ==> forall x :: x in r <==> x in rows && x.id != id
    ensures |r| <= |rows|
  {
    if |rows| <= MinRows then rows else RowsWithout(rows, id)
  }

  lemma {:induction false} RowsWithoutAbsent(rows: seq<RowDef>, id: string)
    requires forall i :: 0 <= i < |rows| ==> rows[i].id != id
    ensures RowsWithout(rows, id) == rows
  {
    if rows != [] {
      RowsWithoutAbsent(rows[1..], id);
      assert rows == [rows[0]] + rows[1..];
    }
  }

  /** With distinct ids, filtering one id out removes exactly one row when the
      id is there and keeps the ids distinct. */
  lemma {:induction false} RowsWithoutUnique(rows: seq<RowDef>, id: string)
    requires UniqueIds(rows)
    ensures |RowsWithout(rows, id)| == if id in RowIds(rows) then |rows| - 1 else |rows|
    ensures UniqueIds(RowsWithout(rows, id))
  {
    if rows != [] {
      var rest := rows[1..];
      assert RowIds(rest) == RowIds(rows)[1..];
      assert RowIds(rows)[0] == rows[0].id;
      RowsWithoutUnique(rest, id);
      if rows[0].id == id {
        assert forall i :: 0 <= i < |rest| ==> rest[i].id != id by {
          forall i | 0 <= i < |rest| ensures rest[i].id != id {
            assert rows[i + 1] == rest[i];
          }
        }
        RowsWithoutAbsent(rest, id);
      } else {
        var r := RowsWithout(rows, id);
        assert r == [rows[0]] + RowsWithout(rest, id);
        forall i, j | 0 <= i < j < |r| ensures r[i].id != r[j].id {
          if i == 0 {
            assert r[j] in RowsWithout(rest, id);
            var k :| 0 <= k < |rest| && rest[k] == r[j];
          }
        }
      }
    }
  }

  /** A removal keeps a sound list sound, and removing an id no row has
      changes nothing. */
  lemma RemoveKeepsSound(rows: seq<RowDef>, id: string)
    ensures id !in RowIds(rows) ==> Removed(rows, id) == rows
    ensures Sound(rows) ==> Sound(Removed(rows, id))
  {
    if id !in RowIds(rows) {
      assert forall i :: 0 <= i < |rows| ==> rows[i].id != id by {
        forall i | 0 <= i < |rows| ensures rows[i].id != id {
          assert RowIds(rows)[i] == rows[i].id;
        }
      }
      RowsWithoutAbsent(rows, id);
    }
    if Sound(rows) {
      RowsWithoutUnique(rows, id);
    }
  }

  /** With a duplicated id, which only loaded data can bring in, `removeRow`
      can go below `MIN_ROWS`: six rows, two of them `x`, leave four. */
  lemma RemoveWithDuplicatesGoesBelowMin(palette: seq<string>)
    requires |palette| > 0
    ensures var rows := DefaultRows(palette)[..4] + [RowDef("x", "", ""), RowDef("x", "", "")];
      |rows| == MinRows + 1 && |Removed(rows, "x")| == MinRows - 1
  {
    var rows := DefaultRows(palette)[..4] + [RowDef("x", "", ""), RowDef("x", "", "")];
    var d := DefaultRows(palette)[..4];
    assert forall i :: 0 <= i < |d| ==> d[i].id != "x" by {
      forall i | 0 <= i < |d| ensures d[i].id != "x" {
        assert d[i].id == RowIds(DefaultRows(palette))[i] == PositionLabels.PositionIds[i];
      }
    }
    RowsWithoutAbsent(d, "x");
    RowsWithoutConcat(d, [RowDef("x", "", ""), RowDef("x", "", "")], "x");
  }

  lemma {:induction false} RowsWithoutConcat(a: seq<RowDef>, b: seq<RowDef>, id: string)
    ensures RowsWithout(a + b, id) == RowsWithout(a, id) + RowsWithout(b, id)
  {
    if a != [] {
      assert (a + b)[1..] == a[1..] + b;
      RowsWithoutConcat(a[1..], b, id);
    } else {
      assert a + b == b;
    }
  }

  /** `rows.map(r => r.id === id ? { ...r, name } : r)` */
  function Relabelled(rows: seq<RowDef>, id: string, name: string): (r: seq<RowDef>)
    ensures RowIds(r) == RowIds(rows)
    ensures forall i :: 0 <= i < |rows| ==>
      r[i] == if rows[i].id == id then rows[i].(name := name) else rows[i]
  {
    seq(|rows|, i requires 0 <= i < |rows| => if rows[i].id == id then rows[i].(name := name) else rows[i])
  }

  /** `rows.map(r => r.id === id ? { ...r, color } : r)` */
  function Recolored(rows: seq<RowDef>, id: string, color: string): (r: seq<RowDef>)
    ensures RowIds(r) == RowIds(rows)
    ensures forall i :: 0 <= i < |rows| ==>
      r[i] == if rows[i].id == id then rows[i].(color := color) else rows[i]
  {
    seq(|rows|, i requires 0 <= i < |rows| => if rows[i].id == id then rows[i].(color := color) else rows[i])
  }

  /** `getRowLabel`: `rows.find(r => r.id === id)?.name ?? ""`, the name of
      the first row with that id (`RowLabelIsFirst`), or `""`. */
  function RowLabel(rows: seq<RowDef>, id: string): (r: string)
    ensures id !in RowIds(rows) ==> r == ""
    ensures id in RowIds(rows) ==> exists i :: 0 <= i < |rows| && rows[i].id == id && rows[i].name == r
  {
    if rows == [] then ""
    else if rows[0].id == id then
      assert RowIds(rows)[0] == id;
      rows[0].name
    else
      var r := RowLabel(rows[1..], id);
      assert RowIds(rows[1..]) == RowIds(rows)[1..];
      assert id in RowIds(rows) ==> id in RowIds(rows[1..]);
      assert forall i :: 1 <= i < |rows| ==> rows[1..][i - 1] == rows[i];
      r
  }

  /** The lookup finds the first row with the id. */
  lemma {:induction false} RowLabelIsFirst(rows: seq<RowDef>, id: string, i: nat)
    requires i < |rows| && rows[i].id == id
    requires forall j :: 0 <= j < i ==> rows[j].id != id
    ensures RowLabel(rows, id) == rows[i].name
  {
    if i > 0 {
      var t := rows[1..];
      assert t[i - 1] == rows[i];
      forall j | 0 <= j < i - 1 ensures t[j].id != id {
        assert t[j] == rows[j + 1];
      }
      RowLabelIsFirst(t, id, i - 1);
    }
  }

  /** After relabelling, the row's label is the new name, and the labels of
      other ids are as they were. */
  lemma {:induction false} RelabelThenLookup(rows: seq<RowDef>, id: string, name: string, other: string)
    ensures id in RowIds(rows) ==> RowLabel(Relabelled(rows, id, name), id) == name
    ensures other != id ==> RowLabel(Relabelled(rows, id, name), other) == RowLabel(rows, other)
  {
    if rows != [] {
      assert Relabelled(rows[1..], id, name) == Relabelled(rows, id, name)[1..];
      assert RowIds(rows[1..]) == RowIds(rows)[1..];
      assert RowIds(rows)[0] == rows[0].id;
      RelabelThenLookup(rows[1..], id, name, other);
    }
  }

  /** The field updates keep the ids, so they keep a sound list sound. */
  lemma UpdatesKeepSound(rows: seq<RowDef>, id: string, value: string)
    requires Sound(rows)
    ensures Sound(Relabelled(rows, id, value)) && Sound(Recolored(rows, id, value))
  {
    var r := Relabelled(rows, id, value);
    var c := Recolored(rows, id, value);
    forall i, j | 0 <= i < j < |rows| ensures r[i].id != r[j].id && c[i].id != c[j].id {
      assert RowIds(r)[i] == r[i].id && RowIds(r)[j] == r[j].id;
      assert RowIds(c)[i] == c[i].id && RowIds(c)[j] == c[j].id;
      assert RowIds(rows)[i] == rows[i].id && RowIds(rows)[j] == rows[j].id;
    }
  }

  // ---------------------------------------------------------------------
  // The hook's state

  class Rows {
    /** `ROW_COLOR_PALETTE` */
    const palette: seq<string>
    var rows: seq<RowDef>

    ghost predicate Valid()
      reads this
    {
      |palette| > 0 && |rows| <= MaxRows
    }

    /** The initial `useState` value. */
    constructor(saved: Option<seq<SavedRow>>, palette: seq<string>)
      requires |palette| > 0
      ensures this.palette == palette
      ensures rows == InitialRows(saved, palette)
      ensures Valid() && MinRows <= |rows|
    {
      this.palette := palette;
      rows := InitialRows(saved, palette);
    }

    /** `addRow`: at `MAX_ROWS` rows nothing changes; otherwise one row is
        appended, with the first free `row-k` id, the name `行 {n+1}` and the
        palette colour at `n`, where `n` is the previous count. */
    method AddRow()
      requires Valid()
      modifies this
      ensures Valid()
      ensures |old(rows)| >= MaxRows ==> rows == old(rows)
      ensures |old(rows)| < MaxRows ==>
        |rows| == |old(rows)| + 1 &&
        rows == old(rows) + [NewRow(rows[|old(rows)|].id, |old(rows)|, palette)] &&
        IsNextRowId(rows[|old(rows)|].id, old(rows))
      ensures Sound(old(rows)) ==> Sound(rows)
    {
      if |rows| >= MaxRows {
        return;
      }
      var newId := NextRowId(rows);
      if Sound(rows) {
        AddKeepsSound(rows, newId, palette);
      }
      rows := rows + [NewRow(newId, |rows|, palette)];
    }

    /** `removeRow(id)`. */
    method RemoveRow(id: string)
      requires Valid()
      modifies this
      ensures Valid()
      ensures rows == Removed(old(rows), id)
      ensures Sound(old(rows)) ==> Sound(rows)
    {
      RemoveKeepsSound(rows, id);
      rows := Removed(rows, id);
    }

    /** `updateRowLabel(id, name)`. */
    method UpdateRowLabel(id: string, name: string)
      requires Valid()
      modifies this
      ensures Valid()
      ensures rows == Relabelled(old(rows), id, name)
      ensures Sound(old(rows)) ==> Sound(rows)
    {
      if Sound(rows) {
        UpdatesKeepSound(rows, id, name);
      }
      rows := Relabelled(rows, id, name);
    }

    /** `updateRowColor(id, color)`. */
    method UpdateRowColor(id: string, color: string)
      requires Valid()
      modifies this
      ensures Valid()
      ensures rows == Recolored(old(rows), id, color)
      ensures Sound(old(rows)) ==> Sound(rows)
    {
      if Sound(rows) {
        UpdatesKeepSound(rows, id, color);
      }
      rows := Recolored(rows, id, color);
    }

    /** `resetRows()`. */
    method ResetRows()
      requires Valid()
      modifies this
      ensures Valid()
      ensures rows == DefaultRows(palette) && Sound(rows)
    {
      rows := DefaultRows(palette);
    }
  }
}
