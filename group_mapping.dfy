/**
  The CSV import mapping of the Group module: processRow turns one row of a
  spreadsheet into the groups of the resource it creates, from the default
  groups of the import and from the cells of the columns mapped to groups.
*/
module GroupMapping {
  import opened Php

  /** The settings of one import, as processRow reads them. */
  datatype Args = Args(
    /** column-group: the columns mapped to groups, None when the setting is absent. */
    groupColumns: Option<set<nat>>,
    /** o-module-group:group: the default group identifiers, ids or names. */
    defaults: seq<string>,
    /** column-multivalue: the columns whose flag is not empty. */
    multivalue: set<nat>,
    /** multivalue_separator, "" when absent. */
    separator: string)

  /** One entry of o-module-group:group in the data of a row. */
  datatype Entry =
    | IdRef(id: nat)        // ['o:id' => (int) $id], a default given by id
    | NameRef(name: string) // ['o:name' => $id], a default given by name
    | FoundId(id: nat)      // $group->id(), a group found from a cell

  /** The characters each piece of a multivalue cell is trimmed of: tab, new line,
      carriage return, space, no-break space and narrow no-break space. */
  const CellTrim: set<char> := {'\t', '\n', '\r', ' ', '\U{A0}', '\U{202F}'}

  /** A default identifier made of digits is a reference by id (cast to a PHP integer), any other one by name. */
  function DefaultEntry(id: string): Entry
  {
    if IsIdString(id) then IdRef(IntCast(id)) else NameRef(id)
  }

  /** The entries of the default identifiers, in order. */
  function DefaultEntries(ids: seq<string>): seq<Entry>
  {
    seq(|ids|, k requires 0 <= k < |ids| => DefaultEntry(ids[k]))
  }

  /**
    Each default identifier gives one entry: by id when it is made of digits,
    its value capped at PHP_INT_MAX, by name otherwise.
  */
  lemma DefaultEntriesCases(ids: seq<string>)
    ensures |DefaultEntries(ids)| == |ids|
    ensures forall k :: 0 <= k < |ids| ==>
      (DefaultEntries(ids)[k].IdRef? <==> IsIdString(ids[k]))
      && (DefaultEntries(ids)[k].IdRef? ==> DefaultEntries(ids)[k].id <= PhpIntMax)
      && (DefaultEntries(ids)[k].IdRef? && IdValue(ids[k]) <= PhpIntMax ==> DefaultEntries(ids)[k].id == IdValue(ids[k]))
      && (DefaultEntries(ids)[k].IdRef? && IdValue(ids[k]) > PhpIntMax ==> DefaultEntries(ids)[k].id == PhpIntMax)
      && (DefaultEntries(ids)[k].NameRef? ==> DefaultEntries(ids)[k].name == ids[k])
  {
  }

  /** array_filter($values, 'strlen'): the values of non-zero length, in order. */
  function NonEmpty(vs: seq<string>): seq<string>
  {
    if |vs| == 0 then []
    else (if vs[0] == "" then [] else [vs[0]]) + NonEmpty(vs[1..])
  }

  /** The filter keeps exactly the values of non-zero length. */
  lemma {:induction false} NonEmptyOf(vs: seq<string>, v: string)
    ensures v in NonEmpty(vs) <==> v in vs && v != ""
  {
    if |vs| > 0 {
      NonEmptyOf(vs[1..], v);
      assert v in vs <==> v == vs[0] || v in vs[1..];
    }
  }

  /** The pieces of a multivalue cell: exploded on the separator, each trimmed. */
  function Pieces(separator: string, cell: string): (pieces: seq<string>)
    requires separator != ""
  {
    TrimEach(Explode(separator, cell), CellTrim)
  }

  /**
    The values of one cell. A column without the multivalue flag gives the
    cell itself; a multivalue column gives its trimmed pieces. Values of zero
    length are dropped. explode() refuses an empty separator, and the cell
    then gives no value.
  */
  function CellValues(args: Args, index: nat, cell: string): seq<string>
  {
    if index !in args.multivalue then NonEmpty([cell])
    else if args.separator == "" then []
    else NonEmpty(Pieces(args.separator, cell))
  }

  /** A cell of a column without the multivalue flag is one value, kept unless it is empty. */
  lemma SingleValueCell(args: Args, index: nat, cell: string)
    requires index !in args.multivalue
    ensures CellValues(args, index, cell) == if cell == "" then [] else [cell]
  {
    assert [cell][1..] == [];
    assert NonEmpty([cell]) == (if cell == "" then [] else [cell]) + NonEmpty([]);
  }

  /** The values of a multivalue cell are its non-empty pieces. */
  lemma MultiValueCellPieces(args: Args, index: nat, cell: string, v: string)
    requires index in args.multivalue && args.separator != ""
    ensures v in CellValues(args, index, cell) <==> v in Pieces(args.separator, cell) && v != ""
  {
    NonEmptyOf(Pieces(args.separator, cell), v);
  }

  /**
    A multivalue cell gives exactly the non-empty trimmed pieces between its
    separators: every value is such a piece, with no trimmed character at
    either end, and every such piece is a value.
  */
  lemma MultiValueCell(args: Args, index: nat, cell: string, parts: seq<string>, v: string)
    requires index in args.multivalue && args.separator != ""
    requires parts == Explode(args.separator, cell)
    ensures v in CellValues(args, index, cell) <==>
      v != "" && exists k :: 0 <= k < |parts| && v == Trim(parts[k], CellTrim)
    ensures v in CellValues(args, index, cell) ==> v[0] !in CellTrim && v[|v| - 1] !in CellTrim
  {
    MultiValueCellPieces(args, index, cell, v);
    TrimEachOf(parts, CellTrim, v);
  }

  /**
    "0" is a value of its cell, though PHP counts it as false: the filter is
    on the length. Exploded on a comma, "0" is the one piece "0".
  */
  lemma ZeroIsKept(args: Args, index: nat)
    requires index !in args.multivalue || args.separator == ","
    ensures CellValues(args, index, "0") == ["0"]
  {
    if index !in args.multivalue {
      SingleValueCell(args, index, "0");
    } else {
      ZeroOnePiece();
      assert ["0"][1..] == [];
    }
  }

  /** "0" holds no comma: exploded and trimmed, it is the one piece "0". */
  lemma ZeroOnePiece()
    ensures Pieces(",", "0") == ["0"]
  {
    ZeroExplodes();
    TrimKeepsInner("0", CellTrim);
  }

  /** Exploding "0" on a comma gives it back whole. */
  lemma ZeroExplodes()
    ensures Explode(",", "0") == ["0"]
  {
    assert "0"[..1][0] != ","[0];
    assert "0"[1..] == "";
    assert IndexOf("0", ",").None?;
  }

  /** Whether a column is one of those mapped to groups. */
  predicate IsGroupColumn(args: Args, index: nat)
  {
    args.groupColumns.Some? && index in args.groupColumns.value
  }

  /**
    findGroup: an identifier made of digits is looked up as an id, any other
    one as a name; byId and byName stand for the search of the api, giving the
    id of the first group found.
  */
  function Find(identifier: string, byId: nat -> Option<nat>, byName: string -> Option<nat>): Option<nat>
  {
    if IsIdString(identifier) then byId(IdValue(identifier)) else byName(identifier)
  }

  /** The entries of the groups found for some values, in the order of the values. */
  function FoundEntries(values: seq<string>, byId: nat -> Option<nat>, byName: string -> Option<nat>): (r: seq<Entry>)
  {
    if |values| == 0 then []
    else
      var head := match Find(values[0], byId, byName)
        case Some(id) => [FoundId(id)]
        case None => [];
      head + FoundEntries(values[1..], byId, byName)
  }

  /** Some value is not the identifier of any group. */
  predicate AnyMissing(values: seq<string>, byId: nat -> Option<nat>, byName: string -> Option<nat>)
  {
    exists k :: 0 <= k < |values| && Find(values[k], byId, byName).None?
  }

  /** The values found are appended in their order: the found entries of two lists joined. */
  lemma {:induction false} FoundEntriesConcat(a: seq<string>, b: seq<string>, byId: nat -> Option<nat>, byName: string -> Option<nat>)
    ensures FoundEntries(a + b, byId, byName) == FoundEntries(a, byId, byName) + FoundEntries(b, byId, byName)
    decreases |a|
  {
    if |a| > 0 {
      assert (a + b)[1..] == a[1..] + b;
      FoundEntriesConcat(a[1..], b, byId, byName);
    } else {
      assert a + b == b;
    }
  }

  /** Some value of two lists joined is missing iff one of either list is. */
  lemma AnyMissingConcat(a: seq<string>, b: seq<string>, byId: nat -> Option<nat>, byName: string -> Option<nat>)
    ensures AnyMissing(a + b, byId, byName) <==> AnyMissing(a, byId, byName) || AnyMissing(b, byId, byName)
  {
    var ab := a + b;
    if AnyMissing(ab, byId, byName) {
      var k :| 0 <= k < |ab| && Find(ab[k], byId, byName).None?;
      if k < |a| {
        assert ab[k] == a[k];
      } else {
        assert ab[k] == b[k - |a|];
      }
    }
    if AnyMissing(a, byId, byName) {
      var k :| 0 <= k < |a| && Find(a[k], byId, byName).None?;
      assert ab[k] == a[k];
    }
    if AnyMissing(b, byId, byName) {
      var k :| 0 <= k < |b| && Find(b[k], byId, byName).None?;
      assert ab[|a| + k] == b[k];
    }
  }

  /** Every value gives exactly one found entry or one missing identifier. */
  lemma {:induction false} FoundEntriesCount(values: seq<string>, byId: nat -> Option<nat>, byName: string -> Option<nat>)
    ensures |FoundEntries(values, byId, byName)| <= |values|
    ensures |FoundEntries(values, byId, byName)| == |values| <==> !AnyMissing(values, byId, byName)
    ensures forall k :: 0 <= k < |FoundEntries(values, byId, byName)| ==>
      FoundEntries(values, byId, byName)[k].FoundId?
      && exists j :: 0 <= j < |values| && Find(values[j], byId, byName) == Some(FoundEntries(values, byId, byName)[k].id)
    decreases |values|
  {
    if |values| > 0 {
      var rest := values[1..];
      FoundEntriesCount(rest, byId, byName);
      var found := FoundEntries(values, byId, byName);
      var tail := FoundEntries(rest, byId, byName);
      assert AnyMissing(values, byId, byName) <==>
        Find(values[0], byId, byName).None? || AnyMissing(rest, byId, byName) by {
        if AnyMissing(rest, byId, byName) {
          var j :| 0 <= j < |rest| && Find(rest[j], byId, byName).None?;
          assert values[j + 1] == rest[j];
        }
        if AnyMissing(values, byId, byName) && Find(values[0], byId, byName).Some? {
          var j :| 0 <= j < |values| && Find(values[j], byId, byName).None?;
          assert rest[j - 1] == values[j];
        }
      }
      forall k | 0 <= k < |found|
        ensures exists j :: 0 <= j < |values| && Find(values[j], byId, byName) == Some(found[k].id)
      {
        if Find(values[0], byId, byName).Some? {
          if k == 0 {
            assert Find(values[0], byId, byName) == Some(found[0].id);
          } else {
            assert found[k] == tail[k - 1];
            var j :| 0 <= j < |rest| && Find(rest[j], byId, byName) == Some(tail[k - 1].id);
            assert values[j + 1] == rest[j];
          }
        } else {
          assert found[k] == tail[k];
          var j :| 0 <= j < |rest| && Find(rest[j], byId, byName) == Some(tail[k].id);
          assert values[j + 1] == rest[j];
        }
      }
    }
  }

  /** The values of the group columns among the first n cells of a row, in order. */
  function GroupValues(args: Args, row: seq<string>, n: nat): seq<string>
    requires n <= |row|
  {
    Flatten(Columns(args, row)[..n])
  }

  /** The values of each cell of a row that a group column holds, [] for the other cells. */
  function Columns(args: Args, row: seq<string>): (cols: seq<seq<string>>)
    ensures |cols| == |row|
  {
    seq(|row|, i requires 0 <= i < |row| => CellOf(args, row, i))
  }

  /** The values of cell i when its column is mapped to groups, [] otherwise. */
  function CellOf(args: Args, row: seq<string>, i: nat): seq<string>
    requires i < |row|
  {
    if IsGroupColumn(args, i) then CellValues(args, i, row[i]) else []
  }

  /** The group values of the first n + 1 cells are those of the first n followed by those of cell n. */
  lemma GroupValuesStep(args: Args, row: seq<string>, n: nat)
    requires n < |row|
    ensures GroupValues(args, row, n + 1) == GroupValues(args, row, n) + CellOf(args, row, n)
  {
    FlattenStep(Columns(args, row), n);
  }

  /** A value belongs to the group values of a row iff one of its group columns gives it. */
  lemma GroupValuesOf(args: Args, row: seq<string>, v: string)
    ensures v in GroupValues(args, row, |row|) <==>
      exists i :: 0 <= i < |row| && IsGroupColumn(args, i) && v in CellValues(args, i, row[i])
  {
    var cols := Columns(args, row);
    assert cols[..|row|] == cols;
    FlattenMember(cols, v);
    if exists i :: 0 <= i < |cols| && v in cols[i] {
      var i :| 0 <= i < |cols| && v in cols[i];
      assert IsGroupColumn(args, i) && v in CellValues(args, i, row[i]);
    }
    if exists i :: 0 <= i < |row| && IsGroupColumn(args, i) && v in CellValues(args, i, row[i]) {
      var i :| 0 <= i < |row| && IsGroupColumn(args, i) && v in CellValues(args, i, row[i]);
      assert v in cols[i];
    }
  }

  /**
    The group data of a row: absent when neither the group columns nor the
    default groups are set; otherwise the default entries followed by the
    groups found from the group columns.
  */
  function RowGroups(args: Args, row: seq<string>, byId: nat -> Option<nat>, byName: string -> Option<nat>): Option<seq<Entry>>
  {
    if args.groupColumns.None? && |args.defaults| == 0 then None
    else Some(DefaultEntries(args.defaults) + FoundEntries(GroupValues(args, row, |row|), byId, byName))
  }

  /**
    What the data of a row holds: the defaults first, then one found entry per
    value of a group column that identifies a group, each the id of a group
    some value identifies. Nothing is found without group columns.
  */
  lemma RowGroupsShape(args: Args, row: seq<string>, byId: nat -> Option<nat>, byName: string -> Option<nat>)
    ensures RowGroups(args, row, byId, byName).Some? <==> args.groupColumns.Some? || |args.defaults| > 0
    ensures RowGroups(args, row, byId, byName).Some? ==>
      var groups := RowGroups(args, row, byId, byName).value;
      var n := |args.defaults|;
      && n <= |groups|
      && groups[..n] == DefaultEntries(args.defaults)
      && (forall k :: n <= k < |groups| ==>
            (groups[k].FoundId? && FoundInRow(args, row, groups[k].id, byId, byName)))
    ensures args.groupColumns.None? && |args.defaults| > 0 ==>
      RowGroups(args, row, byId, byName) == Some(DefaultEntries(args.defaults))
  {
    var values := GroupValues(args, row, |row|);
    var found := FoundEntries(values, byId, byName);
    FoundEntriesCount(values, byId, byName);
    if RowGroups(args, row, byId, byName).Some? {
      var groups := RowGroups(args, row, byId, byName).value;
      var n := |args.defaults|;
      assert groups[..n] == DefaultEntries(args.defaults);
      forall k | n <= k < |groups|
        ensures groups[k].FoundId? && FoundInRow(args, row, groups[k].id, byId, byName)
      {
        assert groups[k] == found[k - n];
        var j :| 0 <= j < |values| && Find(values[j], byId, byName) == Some(found[k - n].id);
        GroupValuesOf(args, row, values[j]);
      }
    }
    if args.groupColumns.None? {
      NoGroupColumns(args, row);
      assert DefaultEntries(args.defaults) + [] == DefaultEntries(args.defaults);
    }
  }

  /** Some value of a group column of the row identifies the group id. */
  predicate FoundInRow(args: Args, row: seq<string>, id: nat, byId: nat -> Option<nat>, byName: string -> Option<nat>)
  {
    exists i, v :: 0 <= i < |row| && IsGroupColumn(args, i) && v in CellValues(args, i, row[i])
      && Find(v, byId, byName) == Some(id)
  }

  /** Without group columns no cell gives a group value. */
  lemma NoGroupColumns(args: Args, row: seq<string>)
    requires args.groupColumns.None?
    ensures GroupValues(args, row, |row|) == []
  {
    var cols := Columns(args, row);
    if GroupValues(args, row, |row|) != [] {
      var v := GroupValues(args, row, |row|)[0];
      GroupValuesOf(args, row, v);
    }
  }

  /**
    cols holds the values of each cell of the row that a group column holds.
    The quantifier is triggered by CellOf only, so that reasoning about cols
    alone does not open up how cells are parsed.
  */
  predicate ColumnsOf(args: Args, row: seq<string>, cols: seq<seq<string>>)
  {
    |cols| == |row| && forall i {:trigger CellOf(args, row, i)} :: 0 <= i < |row| ==> cols[i] == CellOf(args, row, i)
  }

  lemma ColumnsOfColumns(args: Args, row: seq<string>)
    ensures ColumnsOf(args, row, Columns(args, row))
  {
  }

  /** What the cell at index adds to the entries and to the error flag of the cells before it. */
  lemma RowStep(cols: seq<seq<string>>, index: nat, start: seq<Entry>, before: seq<Entry>, after: seq<Entry>,
                raised: bool, now: bool, byId: nat -> Option<nat>, byName: string -> Option<nat>)
    requires index < |cols|
    requires before == start + FoundEntries(Flatten(cols[..index]), byId, byName)
    requires after == before + FoundEntries(cols[index], byId, byName)
    requires raised == AnyMissing(Flatten(cols[..index]), byId, byName)
    requires now == (raised || AnyMissing(cols[index], byId, byName))
    ensures after == start + FoundEntries(Flatten(cols[..index + 1]), byId, byName)
    ensures now == AnyMissing(Flatten(cols[..index + 1]), byId, byName)
  {
    FlattenStep(cols, index);
    FoundEntriesConcat(Flatten(cols[..index]), cols[index], byId, byName);
    AnyMissingConcat(Flatten(cols[..index]), cols[index], byId, byName);
  }

  /** Whether some value of a group column among the first n cells identifies no group. */
  predicate RowMissing(args: Args, row: seq<string>, n: nat, byId: nat -> Option<nat>, byName: string -> Option<nat>)
    requires n <= |row|
  {
    AnyMissing(GroupValues(args, row, n), byId, byName)
  }

  /** The error flag of a row is raised iff a value of one of its group columns identifies no group. */
  lemma RowMissingIff(args: Args, row: seq<string>, byId: nat -> Option<nat>, byName: string -> Option<nat>)
    ensures RowMissing(args, row, |row|, byId, byName) <==>
      exists i, v :: 0 <= i < |row| && IsGroupColumn(args, i) && v in CellValues(args, i, row[i])
        && Find(v, byId, byName).None?
  {
    var values := GroupValues(args, row, |row|);
    if RowMissing(args, row, |row|, byId, byName) {
      var k :| 0 <= k < |values| && Find(values[k], byId, byName).None?;
      GroupValuesOf(args, row, values[k]);
    }
    if exists i, v :: 0 <= i < |row| && IsGroupColumn(args, i) && v in CellValues(args, i, row[i])
        && Find(v, byId, byName).None? {
      var i, v :| 0 <= i < |row| && IsGroupColumn(args, i) && v in CellValues(args, i, row[i])
        && Find(v, byId, byName).None?;
      GroupValuesOf(args, row, v);
      var k :| 0 <= k < |values| && values[k] == v;
    }
  }

  /** The mapping of one import: its settings, the group search it uses and its error flag. */
  class Mapping {
    const args: Args
    const byId: nat -> Option<nat>
    const byName: string -> Option<nat>
    var hasErr: bool

    constructor (args: Args, byId: nat -> Option<nat>, byName: string -> Option<nat>)
      ensures this.args == args && this.byId == byId && this.byName == byName && !hasErr
    {
      this.args := args;
      this.byId := byId;
      this.byName := byName;
      hasErr := false;
    }

    /** findGroup: the group an identifier names; the error flag is raised when there is none. */
    method FindGroup(identifier: string) returns (group: Option<nat>)
      modifies this
      ensures group == Find(identifier, byId, byName)
      ensures hasErr == (old(hasErr) || group.None?)
    {
      var isId := IsIdString(identifier);
      group := if isId then byId(IdValue(identifier)) else byName(identifier);
      if group.None? {
        hasErr := true;
      }
    }

    /**
      processRow: the group data of a row. The error flag is reset first, so
      afterwards it tells only whether this row named a missing group.
    */
    method ProcessRow(row: seq<string>) returns (data: Option<seq<Entry>>)
      modifies this
      ensures data == RowGroups(args, row, byId, byName)
      ensures hasErr == RowMissing(args, row, |row|, byId, byName)
    {
      hasErr := false;
      var present := args.groupColumns.Some?;
      var groups: seq<Entry> := [];
      if |args.defaults| > 0 {
        present := true;
        groups := Defaults();
      }
      assert groups == DefaultEntries(args.defaults);
      ghost var cols := Columns(args, row);
      ColumnsOfColumns(args, row);
      groups := MapRow(row, groups, cols);
      assert cols[..|row|] == cols;
      data := if present then Some(groups) else None;
    }

    /**
      The cells of a row in turn, the error flag being down at the start; cols
      holds the values each cell gives.
    */
    method MapRow(row: seq<string>, start: seq<Entry>, ghost cols: seq<seq<string>>) returns (groups: seq<Entry>)
      requires !hasErr && ColumnsOf(args, row, cols)
      modifies this
      ensures groups == start + FoundEntries(Flatten(cols), byId, byName)
      ensures hasErr == AnyMissing(Flatten(cols), byId, byName)
    {
      groups := start;
      for index := 0 to |row|
        invariant groups == start + FoundEntries(Flatten(cols[..index]), byId, byName)
        invariant hasErr == AnyMissing(Flatten(cols[..index]), byId, byName)
      {
        ghost var before := groups;
        ghost var raised := hasErr;
        groups := MapCell(row, index, groups, cols);
        RowStep(cols, index, start, before, groups, raised, hasErr, byId, byName);
      }
      assert cols[..|row|] == cols;
    }

    /** One cell of a row: the values of a group column are looked up, any other cell is passed over. */
    method MapCell(row: seq<string>, index: nat, start: seq<Entry>, ghost cols: seq<seq<string>>) returns (groups: seq<Entry>)
      requires index < |row| && ColumnsOf(args, row, cols)
      modifies this
      ensures groups == start + FoundEntries(cols[index], byId, byName)
      ensures hasErr == (old(hasErr) || AnyMissing(cols[index], byId, byName))
    {
      assert cols[index] == CellOf(args, row, index);
      var values := CellValues(args, index, row[index]);
      if IsGroupColumn(args, index) {
        groups := MapValues(values, start);
      } else {
        groups := start;
        assert start + FoundEntries([], byId, byName) == start;
      }
    }

    /** The entries of the default identifiers, appended one by one. */
    method Defaults() returns (groups: seq<Entry>)
      ensures groups == DefaultEntries(args.defaults)
    {
      groups := [];
      for i := 0 to |args.defaults|
        invariant groups == DefaultEntries(args.defaults[..i])
      {
        groups := groups + [DefaultEntry(args.defaults[i])];
      }
      assert args.defaults[..|args.defaults|] == args.defaults;
    }

    /** The values of one group column, looked up in turn; each group found is appended. */
    method MapValues(values: seq<string>, start: seq<Entry>) returns (groups: seq<Entry>)
      modifies this
      ensures groups == start + FoundEntries(values, byId, byName)
      ensures hasErr == (old(hasErr) || AnyMissing(values, byId, byName))
    {
      groups := start;
      for j := 0 to |values|
        invariant groups == start + FoundEntries(values[..j], byId, byName)
        invariant hasErr == (old(hasErr) || AnyMissing(values[..j], byId, byName))
      {
        var group := FindGroup(values[j]);
        ProcessValue(values, j, group);
        if group.Some? {
          groups := groups + [FoundId(group.value)];
        }
      }
      assert values[..|values|] == values;
    }

    /** One value of a group column, as the loop of MapValues takes it. */
    lemma ProcessValue(values: seq<string>, j: nat, group: Option<nat>)
      requires j < |values| && group == Find(values[j], byId, byName)
      ensures FoundEntries(values[..j + 1], byId, byName) ==
        FoundEntries(values[..j], byId, byName) + (if group.Some? then [FoundId(group.value)] else [])
      ensures AnyMissing(values[..j + 1], byId, byName) ==
        (AnyMissing(values[..j], byId, byName) || group.None?)
    {
      assert values[..j + 1] == values[..j] + [values[j]];
      FoundEntriesConcat(values[..j], [values[j]], byId, byName);
      AnyMissingConcat(values[..j], [values[j]], byId, byName);
    }
  }

  /**
    trim($v, "\t\n\r   ") as PHP runs it: the character list is read byte by
    byte, so the no-break spaces contribute the single bytes C2, A0, E2, 80
    and AF.
  */
  function TrimPieceAsWritten(b: seq<byte>): (r: seq<byte>)
    ensures r == [] || (r[0] !in CellTrimBytes && r[|r| - 1] !in CellTrimBytes)
  {
    Trim(b, CellTrimBytes)
  }

  /** The bytes trim() reads in the cell trim list, written out. */
  const CellTrimBytes: set<byte> := {0x09, 0x0A, 0x0D, 0x20, 0xC2, 0xA0, 0xE2, 0x80, 0xAF}

  /** They are the bytes of the UTF-8 encoding of the listed characters, each on its own. */
  lemma CellTrimBytesOf()
    ensures BytesOf(CellTrim) == CellTrimBytes
  {
    assert EncodeChar('\U{A0}') == [0xC2, 0xA0];
    assert EncodeChar('\U{202F}') == [0xE2, 0x80, 0xAF];
    forall x | x in BytesOf(CellTrim) ensures x in CellTrimBytes {
      var c, i :| c in CellTrim && 0 <= i < |EncodeChar(c)| && EncodeChar(c)[i] == x;
    }
    forall x | x in CellTrimBytes ensures x in BytesOf(CellTrim) {
      var c, i := if x == 0xC2 || x == 0xA0 then '\U{A0}' else if x >= 0x80 then '\U{202F}' else x as char,
                  if x == 0xC2 || x == 0xE2 || x < 0x80 then 0 else if x == 0xA0 || x == 0x80 then 1 else 2;
      assert c in CellTrim && 0 <= i < |EncodeChar(c)| && EncodeChar(c)[i] == x;
    }
  }

  /**
    A multivalue cell "Voilà": as written, the trim takes the final byte A0 of
    "à" off, so findGroup is asked for a name that is not valid UTF-8; on
    characters the value is kept whole.
  */
  lemma TrailingAGraveTrimmedAsWritten()
    ensures |TrimPieceAsWritten(Utf8("Voil\U{E0}"))| < |Utf8("Voil\U{E0}")|
    ensures Trim("Voil\U{E0}", CellTrim) == "Voil\U{E0}"
  {
    VoilaBytes();
    TrimDropsLast(Utf8("Voil\U{E0}"), CellTrimBytes);
    VoilaKeptWhole();
  }

  /** On characters, the trim of a cell leaves "Voilà" whole. */
  lemma VoilaKeptWhole()
    ensures Trim("Voil\U{E0}", CellTrim) == "Voil\U{E0}"
  {
    TrimKeepsInner("Voil\U{E0}", CellTrim);
  }
}
