/**
 * The role comparison form: given two loaded roles, the permission metadata
 * and the module-name lookup, it adds to the form either a table of the
 * permissions that differ between the roles or a message saying that there
 * are none.
 *
 * The table is built in two loops.  The first walks the difference list by
 * index and files a row for each entry under the entry's provider module.
 * The second walks the providers in the order they were first filed, and
 * each provider's rows in index order, and writes the rows into the table
 * under their index.
 */
module RolesCompareForm {
  import opened Wrappers
  import opened PhpArray
  import opened PermissionDiff
  import opened ProviderGrouping

  /** What the permission handler knows about one permission. */
  datatype PermissionMeta = PermissionMeta(provider: string, title: string)

  /** A loaded role: its machine name, its label (as the form shows it) and the permissions it grants. */
  datatype Role = Role(id: string, roleLabel: string, permissions: seq<string>)

  /** The 'Yes' / 'No' text in a role's column. */
  datatype Answer = Yes | No {
    function Markup(): string
    {
      if Yes? then "Yes" else "No"
    }
  }

  /** One row of the table: module name, permission title and the two roles' answers. */
  datatype Row = Row(moduleName: string, permission: string, role1: Answer, role2: Answer)

  /** The `role_diff` table element: its header and its rows keyed by difference-list index. */
  datatype Table = Table(header: seq<string>, rows: OrderedArray<nat, Row>)

  /** The two form elements the comparison writes; everything else on the form is left alone. */
  datatype Form = Form(roleDiff: Option<Table>, noDiff: Option<string>)

  const SimilarMessage: string := "Both the selected roles has similar permissions"

  /**
   * The inputs of one comparison: the two roles, the permission metadata
   * (identifier to provider and title) and the module handler's name lookup.
   */
  datatype Comparison = Comparison(
    role1: Role,
    role2: Role,
    permissions: map<string, PermissionMeta>,
    getName: string -> string)

  /** The same comparison with the two roles exchanged. */
  function Swapped(c: Comparison): Comparison
  {
    c.(role1 := c.role2, role2 := c.role1)
  }

  /** `$role_diff`. */
  function Diff(c: Comparison): seq<string>
  {
    RoleDiff(c.role1.permissions, c.role2.permissions)
  }

  /** Every differing permission has metadata: the form reads it without checking. */
  predicate HasMetadata(c: Comparison)
  {
    forall x :: x in Diff(c) ==> x in c.permissions
  }

  /** The provider of each entry of the difference list. */
  function Providers(c: Comparison): (ps: seq<string>)
    requires HasMetadata(c)
    ensures |ps| == |Diff(c)|
  {
    var d := Diff(c);
    seq(|d|, k requires 0 <= k < |d| => c.permissions[d[k]].provider)
  }

  /** The answer `in_array` gives for `x` in a role's permission list. */
  function Has(permissions: seq<string>, x: string): (a: Answer)
    ensures a.Markup() == "Yes" <==> x in permissions
    ensures a.Markup() == "No" <==> x !in permissions
  {
    if x in permissions then Yes else No
  }

  /** The row the form builds for permission `x`. */
  function MakeRow(c: Comparison, x: string): (row: Row)
    requires x in c.permissions
    ensures row.moduleName == c.getName(c.permissions[x].provider)
    ensures row.permission == c.permissions[x].title
    ensures row.role1 == Yes <==> x in c.role1.permissions
    ensures row.role2 == Yes <==> x in c.role2.permissions
    ensures x in Diff(c) ==> (row.role1 == Yes <==> row.role2 == No)
  {
    var meta := c.permissions[x];
    Row(c.getName(meta.provider), meta.title, Has(c.role1.permissions, x), Has(c.role2.permissions, x))
  }

  /** The row built for each entry of the difference list. */
  function Rows(c: Comparison): (rows: seq<Row>)
    requires HasMetadata(c)
    ensures |rows| == |Diff(c)|
  {
    var d := Diff(c);
    seq(|d|, k requires 0 <= k < |d| => MakeRow(c, d[k]))
  }

  /** What the first loop reads for entry `i`: its metadata, its provider and its row. */
  lemma EntryFacts(c: Comparison, i: nat)
    requires HasMetadata(c) && i < |Diff(c)|
    ensures Diff(c)[i] in c.permissions
    ensures Providers(c)[i] == c.permissions[Diff(c)[i]].provider
    ensures Rows(c)[i] == MakeRow(c, Diff(c)[i])
  {
    assert Diff(c)[i] in Diff(c);
  }

  /** The table's rows: each index of the difference list in table order, with its row. */
  function DiffTable(c: Comparison): OrderedArray<nat, Row>
    requires HasMetadata(c)
  {
    var t, rows := TableOrder(Providers(c)), Rows(c);
    seq(|t|, j requires 0 <= j < |t| => (t[j], rows[t[j]]))
  }

  /**
   * The first loop: row `i` is filed as `$permission_module_list[provider][i]`.
   * The provider keys come out in first-seen order, and each provider's rows
   * are exactly the indices with that provider, ascending, with their rows.
   */
  method GroupRows(c: Comparison, roleDiff: seq<string>)
    returns (order: seq<string>, groups: map<string, OrderedArray<nat, Row>>)
    requires roleDiff == Diff(c) && HasMetadata(c)
    ensures order == FirstSeen(Providers(c))
    ensures forall p :: p in groups <==> p in order
    ensures forall p :: p in groups ==> Keys(groups[p]) == IndicesOf(Providers(c), p)
    ensures forall p :: p in groups ==> Matches(Rows(c), groups[p])
  {
    ghost var s, vals := Providers(c), Rows(c);
    order, groups := [], map[];
    assert s[..0] == [];
    for i: nat := 0 to |roleDiff|
      invariant Filed(s, vals, i, order, groups)
    {
      EntryFacts(c, i);
      var x := roleDiff[i];
      var provider := c.permissions[x].provider;
      var role1Has, role2Has := No, No;
      if x in c.role1.permissions {
        role1Has := Yes;
      }
      if x in c.role2.permissions {
        role2Has := Yes;
      }
      var row := Row(c.getName(provider), c.permissions[x].title, role1Has, role2Has);
      assert provider == s[i] && row == vals[i];
      FileEntry(s, vals, i, order, groups);
      var moduleList := if provider in groups then groups[provider] else [];
      groups := groups[provider := Assign(moduleList, i, row)];
      if provider !in order {
        order := order + [provider];
      }
    }
    assert s[..|roleDiff|] == s;
  }

  /**
   * The second loop: walking the providers and then each provider's rows,
   * it writes every row into the table under its key.  No key repeats, so
   * no write overwrites an earlier row, and the table lists the indices in
   * `TableOrder`.
   */
  method FlattenGroups(ghost s: seq<string>, ghost vals: seq<Row>, order: seq<string>, groups: map<string, OrderedArray<nat, Row>>)
    returns (rows: OrderedArray<nat, Row>)
    requires order == FirstSeen(s)
    requires forall p :: p in groups <==> p in order
    requires forall p :: p in groups ==> Keys(groups[p]) == IndicesOf(s, p)
    requires forall p :: p in groups ==> Matches(vals, groups[p])
    ensures Keys(rows) == TableOrder(s)
    ensures Matches(vals, rows)
  {
    rows := [];
    assert Distinct(order);
    for a: nat := 0 to |order|
      invariant Keys(rows) == Blocks(s, order[..a])
      invariant Matches(vals, rows)
    {
      var provider := order[a];
      var moduleList := groups[provider];
      assert Keys(moduleList) == IndicesOf(s, provider) && Matches(vals, moduleList);
      for j: nat := 0 to |moduleList|
        invariant Keys(rows) == Blocks(s, order[..a]) + Keys(moduleList)[..j]
        invariant Matches(vals, rows)
      {
        ReadEntry(s, vals, order, a, moduleList, j, rows);
        var (key, permissionList) := moduleList[j];
        rows := Assign(rows, key, permissionList);
      }
      ReadProvider(s, order, a, moduleList);
    }
    assert order[..|order|] == order;
  }

  /**
   * `printRoleDiff`.  With no differing permission the form gets the
   * 'similar permissions' message and no table; otherwise it gets the
   * table, with the four-column header and `DiffTable`'s rows.
   */
  method PrintRoleDiff(form: Form, c: Comparison) returns (result: Form)
    requires HasMetadata(c)
    ensures Diff(c) == [] ==> result == form.(noDiff := Some(SimilarMessage))
    ensures Diff(c) != [] ==>
      result == form.(roleDiff := Some(Table(["Module", "Permission", c.role1.roleLabel, c.role2.roleLabel], DiffTable(c))))
  {
    var roleDiff := RoleDiff(c.role1.permissions, c.role2.permissions);
    if roleDiff != [] {
      var header := ["Module", "Permission", c.role1.roleLabel, c.role2.roleLabel];
      var order, groups := GroupRows(c, roleDiff);
      var rows := FlattenGroups(Providers(c), Rows(c), order, groups);
      assert rows == DiffTable(c) by {
        var t := DiffTable(c);
        assert |rows| == |Keys(rows)| == |t|;
        forall j | 0 <= j < |rows| ensures rows[j] == t[j] {
          assert rows[j].0 == Keys(rows)[j];
        }
      }
      result := form.(roleDiff := Some(Table(header, rows)));
    } else {
      result := form.(noDiff := Some(SimilarMessage));
    }
  }

  // ---------------------------------------------------------------------------
  // Properties of the table

  lemma DiffTableKeys(c: Comparison)
    requires HasMetadata(c)
    ensures Keys(DiffTable(c)) == TableOrder(Providers(c))
  {
  }

  /** No row is lost or overwritten: the table holds each index of the difference list exactly once. */
  lemma DiffTableComplete(c: Comparison)
    requires HasMetadata(c)
    ensures |DiffTable(c)| == |Diff(c)|
    ensures Distinct(Keys(DiffTable(c)))
    ensures forall k: nat :: k in Keys(DiffTable(c)) <==> k < |Diff(c)|
  {
    DiffTableKeys(c);
    TableOrderIsPermutation(Providers(c));
  }

  /**
   * Each row shows its permission's module name and title, and answers
   * 'Yes' for exactly the role that grants the permission.
   */
  lemma DiffTableRows(c: Comparison)
    requires HasMetadata(c)
    ensures forall j :: 0 <= j < |DiffTable(c)| ==>
      var (k, row) := DiffTable(c)[j];
      && k < |Diff(c)|
      && var x := Diff(c)[k];
      && row.moduleName == c.getName(c.permissions[x].provider)
      && row.permission == c.permissions[x].title
      && (row.role1 == Yes <==> x in c.role1.permissions)
      && (row.role2 == Yes <==> x in c.role2.permissions)
      && (row.role1 == Yes <==> row.role2 == No)
  {
    var t := DiffTable(c);
    forall j | 0 <= j < |t|
      ensures t[j].0 < |Diff(c)| && var x := Diff(c)[t[j].0];
        (t[j].1.role1 == Yes <==> t[j].1.role2 == No)
    {
      var x := Diff(c)[t[j].0];
      assert x in Diff(c);
    }
  }

  /**
   * Rows are listed provider by provider, providers in the order the
   * difference list first mentions them, and by ascending index within a
   * provider; the rows of one provider are contiguous.
   */
  lemma DiffTableOrdered(c: Comparison)
    requires HasMetadata(c)
    ensures forall j :: 0 <= j < |DiffTable(c)| ==> DiffTable(c)[j].0 < |Providers(c)|
    ensures forall i, j :: 0 <= i < j < |DiffTable(c)| ==>
      Before(Providers(c), DiffTable(c)[i].0, DiffTable(c)[j].0)
    ensures forall i, j, l ::
      (0 <= i < j < l < |DiffTable(c)| && Providers(c)[DiffTable(c)[i].0] == Providers(c)[DiffTable(c)[l].0]) ==>
      Providers(c)[DiffTable(c)[j].0] == Providers(c)[DiffTable(c)[i].0]
  {
    var s, t := Providers(c), DiffTable(c);
    DiffTableKeys(c);
    TableOrderSorted(s);
    TableOrderGrouped(s);
    forall j | 0 <= j < |t| ensures t[j].0 == TableOrder(s)[j] {
      assert t[j].0 == Keys(t)[j];
    }
  }

  /** Comparing a role with itself finds no difference, so the form shows only the message. */
  lemma SelfComparison(r: Role, permissions: map<string, PermissionMeta>, getName: string -> string)
    ensures var c := Comparison(r, r, permissions, getName);
      HasMetadata(c) && Diff(c) == []
  {
    NoDiffIffSamePermissions(r.permissions, r.permissions);
  }

  /** Exchanges the two roles' answers. */
  function SwapAnswers(row: Row): Row
  {
    row.(role1 := row.role2, role2 := row.role1)
  }

  /** The rows a table shows, forgetting their keys and order. */
  function RowsShown(rows: OrderedArray<nat, Row>): set<Row>
  {
    set e | e in rows :: e.1
  }

  /** Entries that carry their key's row, with every key present, show exactly the rows. */
  lemma ShownRows(t: OrderedArray<nat, Row>, rows: seq<Row>)
    requires Matches(rows, t)
    requires forall k: nat :: k < |rows| ==> k in Keys(t)
    ensures RowsShown(t) == set k | 0 <= k < |rows| :: rows[k]
  {
    forall r | r in RowsShown(t) ensures r in set k | 0 <= k < |rows| :: rows[k] {
      var e :| e in t && e.1 == r;
      var j :| 0 <= j < |t| && t[j] == e;
    }
    forall k | 0 <= k < |rows| ensures rows[k] in RowsShown(t) {
      assert k in Keys(t);
      var j :| 0 <= j < |t| && Keys(t)[j] == k;
      assert t[j] in t;
    }
  }

  /** The rows of the difference list are the rows of its permissions. */
  lemma RowsOfDiff(c: Comparison)
    requires HasMetadata(c)
    ensures (set k | 0 <= k < |Rows(c)| :: Rows(c)[k]) == set x | x in Diff(c) :: MakeRow(c, x)
  {
    var d, rows := Diff(c), Rows(c);
    forall x | x in d ensures MakeRow(c, x) in set k | 0 <= k < |rows| :: rows[k] {
      var k :| 0 <= k < |d| && d[k] == x;
      assert rows[k] == MakeRow(c, x);
    }
  }

  /** The table shows the row of every differing permission and nothing else. */
  lemma DiffTableShows(c: Comparison)
    requires HasMetadata(c)
    ensures RowsShown(DiffTable(c)) == set x | x in Diff(c) :: MakeRow(c, x)
  {
    DiffTableComplete(c);
    ShownRows(DiffTable(c), Rows(c));
    RowsOfDiff(c);
  }

  /**
   * Swapping role 1 and role 2 shows the same permissions with the two
   * answers of every row exchanged; only the order of the two parts of the
   * difference list changes.
   */
  lemma {:induction false} SwapRoles(c: Comparison)
    requires HasMetadata(c)
    ensures HasMetadata(Swapped(c))
    ensures var d, m := Diff(c), Role2OnlyCount(c.role1.permissions, c.role2.permissions);
      m <= |d| && Diff(Swapped(c)) == d[m..] + d[..m]
    ensures RowsShown(DiffTable(Swapped(c))) == set r | r in RowsShown(DiffTable(c)) :: SwapAnswers(r)
  {
    var c' := Swapped(c);
    RoleDiffSwap(c.role1.permissions, c.role2.permissions);
    assert forall x :: x in Diff(c') <==> x in Diff(c);
    DiffTableShows(c);
    DiffTableShows(c');
    forall x | x in Diff(c) ensures MakeRow(c', x) == SwapAnswers(MakeRow(c, x)) {
    }
    var shown := set x | x in Diff(c) :: MakeRow(c, x);
    forall r | r in RowsShown(DiffTable(c')) ensures r in set r0 | r0 in shown :: SwapAnswers(r0) {
      var x :| x in Diff(c') && MakeRow(c', x) == r;
      assert MakeRow(c, x) in shown;
    }
    forall r0 | r0 in shown ensures SwapAnswers(r0) in RowsShown(DiffTable(c')) {
      var x :| x in Diff(c) && MakeRow(c, x) == r0;
      assert MakeRow(c', x) in set y | y in Diff(c') :: MakeRow(c', y);
    }
  }

  // ---------------------------------------------------------------------------
  // The cells of a table row

  /**
   * A row's cells as the table loop writes them: under the keys 'module'
   * and 'permission' and then under the two roles' machine names.
   */
  function WrittenCells(row: Row, role1Id: string, role2Id: string): (cells: seq<string>)
    ensures 2 <= |cells| <= 4
    ensures role1Id !in ["module", "permission"] && role2Id !in ["module", "permission"] ==>
      cells[..2] == [row.moduleName, row.permission]
  {
    var cells := Assign(Assign([], "module", row.moduleName), "permission", row.permission);
    FixedCells(row);
    RoleCellsKeepFixedCells(cells, role1Id, row.role1.Markup(), role2Id, row.role2.Markup());
    Values(Assign(Assign(cells, role1Id, row.role1.Markup()), role2Id, row.role2.Markup()))
  }

  /** Role keys that differ from 'module' and 'permission' leave the first two cells alone. */
  lemma RoleCellsKeepFixedCells(cells: OrderedArray<string, string>, k1: string, v1: string, k2: string, v2: string)
    requires Keys(cells) == ["module", "permission"]
    ensures var r := Assign(Assign(cells, k1, v1), k2, v2);
      k1 !in ["module", "permission"] && k2 !in ["module", "permission"] ==> |r| >= 2 && r[..2] == cells
  {
    if k1 !in ["module", "permission"] && k2 !in ["module", "permission"] {
      assert k1 !in Keys(cells);
      var a := Assign(cells, k1, v1);
      assert a == cells + [(k1, v1)];
      assert Keys(a) == ["module", "permission", k1];
      if k2 == k1 {
        AssignInPlace(a, 2, v2);
      } else {
        assert k2 !in Keys(a);
      }
    }
  }

  /** A row's cells under four fixed keys, one per header column. */
  function RowCells(row: Row): seq<string>
  {
    var cells := Assign(Assign([], "module", row.moduleName), "permission", row.permission);
    Values(Assign(Assign(cells, "role1", row.role1.Markup()), "role2", row.role2.Markup()))
  }

  /** The first two cells, under 'module' and 'permission'. */
  lemma FixedCells(row: Row)
    ensures var a := Assign(Assign([], "module", row.moduleName), "permission", row.permission);
      a == [("module", row.moduleName), ("permission", row.permission)] && Keys(a) == ["module", "permission"]
  {
  }

  /** Whatever the roles are called, a row has one cell per header column, in header order. */
  lemma RowCellsMatchHeader(row: Row)
    ensures RowCells(row) == [row.moduleName, row.permission, row.role1.Markup(), row.role2.Markup()]
  {
    FixedCells(row);
    var a2 := Assign(Assign([], "module", row.moduleName), "permission", row.permission);
    assert "role1" !in Keys(a2);
    var a3 := Assign(a2, "role1", row.role1.Markup());
    assert Keys(a3) == ["module", "permission", "role1"];
    assert "role2" !in Keys(a3);
  }

  /** Machine names that clash with a fixed cell key, or with each other, make the written row lose a cell. */
  lemma WrittenCellsNeedDistinctIds(row: Row, role1Id: string, role2Id: string)
    ensures WrittenCells(row, role1Id, role2Id) == RowCells(row) <==>
      role1Id != role2Id && role1Id !in ["module", "permission"] && role2Id !in ["module", "permission"]
  {
    RowCellsMatchHeader(row);
    FixedCells(row);
    var a2 := Assign(Assign([], "module", row.moduleName), "permission", row.permission);
    var a3 := Assign(a2, role1Id, row.role1.Markup());
    var a4 := Assign(a3, role2Id, row.role2.Markup());
    assert WrittenCells(row, role1Id, role2Id) == Values(a4);
    if role1Id in ["module", "permission"] {
      assert role1Id in Keys(a2);
      assert |Keys(a3)| == 2;
      assert |Keys(a4)| <= 3;
    } else {
      assert role1Id !in Keys(a2);
      assert Keys(a3) == ["module", "permission", role1Id];
      if role2Id in ["module", "permission"] || role2Id == role1Id {
        assert role2Id in Keys(a3);
        assert |Keys(a4)| == 3;
      } else {
        assert role2Id !in Keys(a3);
      }
    }
  }

  /** A role whose machine name is 'module' overwrites the module cell with its own answer. */
  lemma WrittenCellsLoseModuleName()
    ensures var row := Row("Node", "Access the content overview page", No, Yes);
      WrittenCells(row, "module", "editor") == ["No", "Access the content overview page", "Yes"]
  {
    var row := Row("Node", "Access the content overview page", No, Yes);
    FixedCells(row);
    var a2 := Assign(Assign([], "module", row.moduleName), "permission", row.permission);
    AssignInPlace(a2, 0, "No");
    var a3 := Assign(a2, "module", "No");
    assert a3 == [("module", "No"), ("permission", row.permission)];
    assert "editor" !in Keys(a3);
  }

  /** The cells the table displays, one sequence of cells per row. */
  function Render(t: Table): seq<seq<string>>
  {
    seq(|t.rows|, j requires 0 <= j < |t.rows| => RowCells(t.rows[j].1))
  }

  /** The displayed comparison table has one row per differing permission, each as wide as the header. */
  lemma RenderedTableFitsHeader(c: Comparison)
    requires HasMetadata(c)
    ensures var t := Table(["Module", "Permission", c.role1.roleLabel, c.role2.roleLabel], DiffTable(c));
      && |Render(t)| == |Diff(c)|
      && forall j :: 0 <= j < |Render(t)| ==> |Render(t)[j]| == |t.header|
  {
    var t := Table(["Module", "Permission", c.role1.roleLabel, c.role2.roleLabel], DiffTable(c));
    DiffTableComplete(c);
    forall j | 0 <= j < |Render(t)| ensures |Render(t)[j]| == |t.header| {
      RowCellsMatchHeader(t.rows[j].1);
    }
  }
}
