/** The disk lister of the client: the hierarchical ordering of the disks
    (each whole disk followed by its partitions), the tree-drawing prefix of
    each row, the column widths and the padding of one printed value. What is
    written to the wide output stream is returned as a wide string. */
module DiskList {
  import opened Wrappers
  import opened Strings
  import opened DiskTypes
  import opened Common

  // ---------------------------------------------------------------------------
  // orderDisks: reference definition

  /** The whole disks of a list, in list order (the first loop of orderDisks). */
  function WholeDisks(disks: seq<Disk>): (ws: seq<Disk>)
    ensures forall d :: d in ws ==> d in disks && d.IsWhole()
    ensures forall d :: d in disks && d.IsWhole() ==> d in ws
  {
    if disks == [] then []
    else
      var init := disks[..|disks| - 1];
      assert forall d :: d in init ==> d in disks;
      assert disks == init + [disks[|disks| - 1]];
      WholeDisks(init) + (if disks[|disks| - 1].IsWhole() then [disks[|disks| - 1]] else [])
  }

  /** The first disk of the list with the given id: the inner search loop,
      which stops at the first match. */
  function FirstWithId(disks: seq<Disk>, id: string): (r: Option<Disk>)
    ensures r.Some? ==> r.value in disks && r.value.id == id
    ensures r.None? <==> forall d :: d in disks ==> d.id != id
  {
    if disks == [] then None
    else if disks[0].id == id then Some(disks[0])
    else
      assert disks == [disks[0]] + disks[1..];
      FirstWithId(disks[1..], id)
  }

  /** The rows emitted for a list of child ids: the first disk of each id
      that has one, in the order of the ids. */
  function ChildRows(disks: seq<Disk>, ids: seq<string>): (rows: seq<Disk>)
    ensures |rows| <= |ids|
    ensures forall d :: d in rows ==> d in disks && d.id in ids
  {
    if ids == [] then []
    else
      var init := ids[..|ids| - 1];
      assert forall c :: c in init ==> c in ids;
      ChildRows(disks, init) +
        match FirstWithId(disks, ids[|ids| - 1])
        case Some(d) => [d]
        case None => []
  }

  /** The rows of one whole disk: the disk, then its children sorted by id. */
  function Group(disks: seq<Disk>, parent: Disk): seq<Disk> {
    [parent] + ChildRows(disks, SortStrings(parent.children))
  }

  /** The group of each whole disk, in order. */
  function Groups(disks: seq<Disk>, parents: seq<Disk>): (gs: seq<seq<Disk>>)
    ensures |gs| == |parents|
    ensures forall k :: 0 <= k < |parents| ==> gs[k] == Group(disks, parents[k])
  {
    seq(|parents|, k requires 0 <= k < |parents| => Group(disks, parents[k]))
  }

  /** Groups of rows, one after the other. */
  function Concat(groups: seq<seq<Disk>>): seq<Disk> {
    if groups == [] then []
    else Concat(groups[..|groups| - 1]) + groups[|groups| - 1]
  }

  /** orderDisks. */
  function OrderedDisks(disks: seq<Disk>): seq<Disk> {
    Concat(Groups(disks, WholeDisks(disks)))
  }

  // ---------------------------------------------------------------------------
  // orderDisks: the loops

  /** The search for a child row: the first index holding the id, with an
      early exit. */
  method FindDisk(disks: seq<Disk>, id: string) returns (found: Option<Disk>)
    ensures found == FirstWithId(disks, id)
  {
    found := None;
    var i := 0;
    while i < |disks|
      invariant 0 <= i <= |disks|
      invariant forall j :: 0 <= j < i ==> disks[j].id != id
    {
      if disks[i].id == id {
        FirstWithIdFirst(disks, id, i);
        found := Some(disks[i]);
        return;
      }
      i := i + 1;
    }
  }

  /** The rows pushed for the sorted children of one whole disk. */
  method AppendChildren(disks: seq<Disk>, childrenSorted: seq<string>) returns (rows: seq<Disk>)
    ensures rows == ChildRows(disks, childrenSorted)
  {
    rows := [];
    for k := 0 to |childrenSorted|
      invariant rows == ChildRows(disks, childrenSorted[..k])
    {
      var found := FindDisk(disks, childrenSorted[k]);
      assert childrenSorted[..k + 1][..k] == childrenSorted[..k];
      match found {
        case Some(d) => rows := rows + [d];
        case None =>
      }
    }
    assert childrenSorted[..|childrenSorted|] == childrenSorted;
  }

  /** The sorted copy of a disk's children (the vector filled and handed to
      std::sort). */
  method SortedChildren(d: Disk) returns (childrenSorted: seq<string>)
    ensures childrenSorted == SortStrings(d.children)
  {
    var a := new string[|d.children|];
    for c := 0 to |d.children|
      invariant a[..c] == d.children[..c]
    {
      a[c] := d.children[c];
    }
    assert a[..] == d.children;
    SortInPlace(a);
    SortedPermutationIsSortStrings(d.children, a[..]);
    childrenSorted := a[..];
  }

  /** orderDisks: the whole disks in input order, each followed by the first
      disk of each of its children's ids, in sorted id order. */
  method OrderDisks(disks: seq<Disk>) returns (ordered: seq<Disk>)
    ensures ordered == OrderedDisks(disks)
  {
    var parentDisks := CollectWholeDisks(disks);
    ordered := [];
    for p := 0 to |parentDisks|
      invariant ordered == Concat(Groups(disks, parentDisks[..p]))
    {
      var d := parentDisks[p];
      var rows := EmitGroup(disks, d);
      GroupsSnoc(disks, parentDisks, p);
      ordered := ordered + rows;
    }
    assert parentDisks[..|parentDisks|] == parentDisks;
  }

  /** The first loop of orderDisks: the whole disks, in input order. */
  method CollectWholeDisks(disks: seq<Disk>) returns (parentDisks: seq<Disk>)
    ensures parentDisks == WholeDisks(disks)
  {
    parentDisks := [];
    for i := 0 to |disks|
      invariant parentDisks == WholeDisks(disks[..i])
    {
      assert disks[..i + 1][..i] == disks[..i];
      if disks[i].IsWhole() {
        parentDisks := parentDisks + [disks[i]];
      }
    }
    assert disks[..|disks|] == disks;
  }

  /** One pass of the outer loop of orderDisks: the whole disk, then its
      children's rows. */
  method EmitGroup(disks: seq<Disk>, d: Disk) returns (rows: seq<Disk>)
    ensures rows == Group(disks, d)
  {
    var childrenSorted := SortedChildren(d);
    var children := AppendChildren(disks, childrenSorted);
    rows := [d] + children;
  }

  // ---------------------------------------------------------------------------
  // orderDisks: properties

  /** The first disk with an id is the one at the first index holding it. */
  lemma {:induction false} FirstWithIdFirst(disks: seq<Disk>, id: string, i: nat)
    requires i < |disks| && disks[i].id == id
    requires forall j :: 0 <= j < i ==> disks[j].id != id
    ensures FirstWithId(disks, id) == Some(disks[i])
    decreases i
  {
    if i > 0 {
      FirstWithIdFirst(disks[1..], id, i - 1);
    }
  }

  /** Adding a group adds its rows at the end. */
  lemma ConcatSnoc(groups: seq<seq<Disk>>, g: seq<Disk>)
    ensures Concat(groups + [g]) == Concat(groups) + g
  {
    assert (groups + [g])[..|groups|] == groups;
  }

  /** One more whole disk adds its group at the end of the rows. */
  lemma GroupsSnoc(disks: seq<Disk>, parents: seq<Disk>, p: nat)
    requires p < |parents|
    ensures Concat(Groups(disks, parents[..p + 1])) ==
      Concat(Groups(disks, parents[..p])) + Group(disks, parents[p])
  {
    assert Groups(disks, parents[..p + 1]) == Groups(disks, parents[..p]) + [Group(disks, parents[p])];
    ConcatSnoc(Groups(disks, parents[..p]), Group(disks, parents[p]));
  }

  /** The rows of the first m groups come first. */
  lemma {:induction false} ConcatPrefix(groups: seq<seq<Disk>>, m: nat)
    requires m <= |groups|
    ensures Concat(groups[..m]) <= Concat(groups)
    decreases |groups| - m
  {
    if m < |groups| {
      var init := groups[..|groups| - 1];
      assert init[..m] == groups[..m];
      ConcatPrefix(init, m);
    } else {
      assert groups[..m] == groups;
    }
  }

  /** Group k is the contiguous block of rows that starts where the groups
      before it end; the next group starts right after it. */
  lemma ConcatBlock(groups: seq<seq<Disk>>, k: nat)
    requires k < |groups|
    ensures |Concat(groups[..k + 1])| == |Concat(groups[..k])| + |groups[k]| <= |Concat(groups)|
    ensures forall i :: 0 <= i < |groups[k]| ==>
      Concat(groups)[|Concat(groups[..k])| + i] == groups[k][i]
  {
    var before := Concat(groups[..k]);
    var upTo := Concat(groups[..k + 1]);
    var rows := Concat(groups);
    assert groups[..k + 1] == groups[..k] + [groups[k]];
    ConcatSnoc(groups[..k], groups[k]);
    ConcatPrefix(groups, k + 1);
    forall i | 0 <= i < |groups[k]| ensures rows[|before| + i] == groups[k][i] {
      assert rows[|before| + i] == upTo[|before| + i];
    }
  }

  /** Row i of group k, at its place in the concatenation. */
  lemma ConcatAt(groups: seq<seq<Disk>>, k: nat, i: nat)
    requires k < |groups| && i < |groups[k]|
    ensures |Concat(groups[..k])| + i < |Concat(groups)|
    ensures Concat(groups)[|Concat(groups[..k])| + i] == groups[k][i]
  {
    ConcatBlock(groups, k);
  }

  /** What follows group k when no group is empty: the end of the rows, or
      the first row of group k + 1. */
  lemma NextBlockStart(groups: seq<seq<Disk>>, k: nat)
    requires k < |groups|
    requires k + 1 < |groups| ==> groups[k + 1] != []
    ensures var end := |Concat(groups[..k])| + |groups[k]|;
      end < |Concat(groups)| ==> k + 1 < |groups| && Concat(groups)[end] == groups[k + 1][0]
  {
    ConcatBlock(groups, k);
    if k + 1 < |groups| {
      ConcatBlock(groups, k + 1);
      assert Concat(groups)[|Concat(groups[..k + 1])| + 0] == groups[k + 1][0];
    } else {
      assert groups[..k + 1] == groups;
    }
  }

  /** Every row belongs to one of the groups. */
  lemma {:induction false} ConcatMember(groups: seq<seq<Disk>>, d: Disk)
    ensures d in Concat(groups) ==> exists k :: 0 <= k < |groups| && d in groups[k]
  {
    if groups != [] && d in Concat(groups) {
      var init := groups[..|groups| - 1];
      ConcatMember(init, d);
      if d in Concat(init) {
        var k :| 0 <= k < |init| && d in init[k];
        assert groups[k] == init[k];
      } else {
        assert d in groups[|groups| - 1];
      }
    }
  }

  /** Every row comes from the input, as a whole disk or as a child of one. */
  lemma OrderedRows(disks: seq<Disk>, d: Disk)
    ensures d in OrderedDisks(disks) ==>
      exists p :: p in WholeDisks(disks) && (d == p || d in ChildRows(disks, SortStrings(p.children)))
  {
    var ws := WholeDisks(disks);
    ConcatMember(Groups(disks, ws), d);
    if d in OrderedDisks(disks) {
      var k :| 0 <= k < |ws| && d in Group(disks, ws[k]);
      assert ws[k] in ws;
    }
  }

  /** Every whole disk of the input is listed, and every listed disk is from
      the input. */
  lemma OrderedDisksCoverWhole(disks: seq<Disk>, d: Disk)
    ensures d in disks && d.IsWhole() ==> d in OrderedDisks(disks)
    ensures d in OrderedDisks(disks) ==> d in disks
  {
    var ws := WholeDisks(disks);
    var gs := Groups(disks, ws);
    if d in disks && d.IsWhole() {
      var k :| 0 <= k < |ws| && ws[k] == d;
      ConcatBlock(gs, k);
      assert OrderedDisks(disks)[|Concat(gs[..k])| + 0] == gs[k][0];
    }
    OrderedRows(disks, d);
  }

  /** A disk that is not whole and is named in no whole disk's children is
      not listed. */
  lemma OrphansExcluded(disks: seq<Disk>, d: Disk)
    requires !d.IsWhole()
    requires forall p :: p in disks && p.IsWhole() ==> d.id !in p.children
    ensures d !in OrderedDisks(disks)
  {
    var ws := WholeDisks(disks);
    forall p | p in ws ensures d !in ChildRows(disks, SortStrings(p.children)) {
      assert d.id !in multiset(p.children);
      assert d.id !in multiset(SortStrings(p.children));
    }
    OrderedRows(disks, d);
  }

  /** Child rows of sorted ids are sorted by id. */
  lemma {:induction false} ChildRowsSorted(disks: seq<Disk>, ids: seq<string>)
    requires Sorted(ids)
    ensures Sorted(Ids(ChildRows(disks, ids)))
  {
    if ids != [] {
      var init := ids[..|ids| - 1];
      var last := ids[|ids| - 1];
      ChildRowsSorted(disks, init);
      var prev := ChildRows(disks, init);
      match FirstWithId(disks, last) {
        case None =>
        case Some(d) =>
          IdsAppend(prev, d);
          var s := Ids(prev + [d]);
          forall i, j | 0 <= i < j < |s| ensures StrLessEq(s[i], s[j]) {
            if j == |s| - 1 {
              assert prev[i] in prev;
              var m :| 0 <= m < |init| && init[m] == prev[i].id;
              assert s[i] == ids[m] && s[j] == ids[|ids| - 1];
            } else {
              assert s[i] == Ids(prev)[i] && s[j] == Ids(prev)[j];
            }
          }
      }
    }
  }

  /** The children of each whole disk are listed in lexicographic order of
      their ids. */
  lemma GroupChildrenSorted(disks: seq<Disk>, parent: Disk)
    ensures Sorted(Ids(Group(disks, parent)[1..]))
  {
    SortStringsSorted(parent.children);
    ChildRowsSorted(disks, SortStrings(parent.children));
    assert Group(disks, parent)[1..] == ChildRows(disks, SortStrings(parent.children));
  }

  /** Each child row is the first disk of the input carrying its id, and a
      child id that some disk carries is never skipped. */
  lemma {:induction false} ChildRowsFirstMatch(disks: seq<Disk>, ids: seq<string>)
    ensures forall d :: d in ChildRows(disks, ids) ==> FirstWithId(disks, d.id) == Some(d)
    ensures forall c :: c in ids && FirstWithId(disks, c).Some? ==>
      FirstWithId(disks, c).value in ChildRows(disks, ids)
  {
    if ids != [] {
      var init := ids[..|ids| - 1];
      ChildRowsFirstMatch(disks, init);
      assert ids == init + [ids[|ids| - 1]];
    }
  }

  // ---------------------------------------------------------------------------
  // Tree prefix of the DISK column (printDiskList)

  /** "└─": the last child of its parent. */
  const LAST_BRANCH: WString := [0x2514, 0x2500]
  /** "├─": a child with a sibling after it. */
  const MID_BRANCH: WString := [0x251C, 0x2500]

  /** The prefix of row i: none for a whole disk; for a partition, the closing
      branch when it is the last row or the next row has another parent, and
      the continuing branch otherwise. */
  function TreePrefix(rows: seq<Disk>, i: nat): (prefix: WString)
    requires i < |rows|
    ensures prefix == [] <==> rows[i].IsWhole()
    ensures prefix == LAST_BRANCH <==>
      !rows[i].IsWhole() && (i == |rows| - 1 || rows[i + 1].parentDisk != rows[i].parentDisk)
    ensures prefix == MID_BRANCH <==>
      !rows[i].IsWhole() && i < |rows| - 1 && rows[i + 1].parentDisk == rows[i].parentDisk
  {
    if rows[i].IsWhole() then []
    else if i == |rows| - 1 || rows[i + 1].parentDisk != rows[i].parentDisk then LAST_BRANCH
    else MID_BRANCH
  }

  /** The listing is made of one group per whole disk, in input order: the
      disk, then its child rows. */
  lemma OrderedDisksGroups(disks: seq<Disk>, k: nat)
    requires k < |WholeDisks(disks)|
    ensures OrderedDisks(disks) == Concat(Groups(disks, WholeDisks(disks)))
    ensures var g := Groups(disks, WholeDisks(disks))[k];
      g != [] && g[0] == WholeDisks(disks)[k] && g[0].IsWhole() &&
      g[1..] == ChildRows(disks, SortStrings(WholeDisks(disks)[k].children))
  {
    var ws := WholeDisks(disks);
    assert ws[k] in ws;
  }

  /** The prefixes draw the tree of each group of a listing made of groups,
      as OrderedDisks is (one group per whole disk: the disk, then its child
      rows): when the rows after the first of group k are partitions naming
      one parent, and the first row of group k + 1 does not name it, every
      one of them but the last continues the branch and the last closes it. */
  lemma BlockPrefixes(groups: seq<seq<Disk>>, k: nat, j: nat, parent: string)
    requires k < |groups| && 1 <= j < |groups[k]|
    requires k + 1 < |groups| ==> groups[k + 1] != []
    requires forall i :: 1 <= i < |groups[k]| ==> !groups[k][i].IsWhole() && groups[k][i].parentDisk == parent
    requires k + 1 < |groups| ==> groups[k + 1][0].parentDisk != parent
    ensures |Concat(groups[..k])| + j < |Concat(groups)|
    ensures Concat(groups)[|Concat(groups[..k])| + j] == groups[k][j]
    ensures TreePrefix(Concat(groups), |Concat(groups[..k])| + j) ==
      if j == |groups[k]| - 1 then LAST_BRANCH else MID_BRANCH
  {
    ConcatAt(groups, k, j);
    if j < |groups[k]| - 1 {
      ConcatAt(groups, k, j + 1);
    } else {
      NextBlockStart(groups, k);
    }
  }


  // ---------------------------------------------------------------------------
  // getColumnWidths

  /** One table row: column name to printed value. */
  type Row = map<string, WString>

  /** The length of a row's value in a column; a missing value reads as the
      empty string (std::map::operator[]). */
  function FieldLength(row: Row, col: string): nat {
    if col in row then |row[col]| else 0
  }

  /** The longest value of the column over the rows, 0 for none. */
  function MaxField(values: seq<Row>, col: string): nat {
    if values == [] then 0
    else
      var m := MaxField(values[..|values| - 1], col);
      var n := FieldLength(values[|values| - 1], col);
      if n > m then n else m
  }

  /** The width of a column: its longest value or its name, whichever is
      longer. */
  function ColumnWidth(values: seq<Row>, col: string): nat {
    var m := MaxField(values, col);
    if m > |col| then m else |col|
  }

  /** MaxField is the maximum: an upper bound of every value's length, and
      attained by one of them when there are rows. */
  lemma {:induction false} MaxFieldIsMax(values: seq<Row>, col: string)
    ensures forall i :: 0 <= i < |values| ==> FieldLength(values[i], col) <= MaxField(values, col)
    ensures |values| > 0 ==> exists i :: 0 <= i < |values| && FieldLength(values[i], col) == MaxField(values, col)
  {
    if values != [] {
      var init := values[..|values| - 1];
      MaxFieldIsMax(init, col);
      assert forall i :: 0 <= i < |init| ==> values[i] == init[i];
      if |init| > 0 && FieldLength(values[|values| - 1], col) <= MaxField(init, col) {
        var i :| 0 <= i < |init| && FieldLength(init[i], col) == MaxField(init, col);
        assert values[i] == init[i];
      }
    }
  }

  /** A column is as wide as its name and as each of its values, and no wider
      than the longest of these. */
  lemma ColumnWidthIsLeastBound(values: seq<Row>, col: string)
    ensures ColumnWidth(values, col) >= |col|
    ensures forall i :: 0 <= i < |values| ==> FieldLength(values[i], col) <= ColumnWidth(values, col)
    ensures ColumnWidth(values, col) == |col| ||
      exists i :: 0 <= i < |values| && ColumnWidth(values, col) == FieldLength(values[i], col)
  {
    MaxFieldIsMax(values, col);
  }

  /** The running maximum of one column over the rows. */
  method MaxFieldLength(values: seq<Row>, col: string) returns (maxFieldLength: nat)
    ensures maxFieldLength == MaxField(values, col)
  {
    maxFieldLength := 0;
    for i := 0 to |values|
      invariant maxFieldLength == MaxField(values[..i], col)
    {
      assert values[..i + 1][..i] == values[..i];
      var strSize := FieldLength(values[i], col);
      if strSize > maxFieldLength {
        maxFieldLength := strSize;
      }
    }
    assert values[..|values|] == values;
  }

  /** getColumnWidths: one width per column of the first row. The columns are
      visited one at a time; each width depends only on its own column, so
      the order of the visits does not matter. */
  method GetColumnWidths(values: seq<Row>) returns (colWidths: map<string, nat>)
    requires |values| > 0
    ensures colWidths.Keys == values[0].Keys
    ensures forall col :: col in colWidths ==> colWidths[col] == ColumnWidth(values, col)
  {
    colWidths := map[];
    var colNames := values[0].Keys;
    while colNames != {}
      invariant colNames <= values[0].Keys
      invariant colWidths.Keys == values[0].Keys - colNames
      invariant forall col :: col in colWidths ==> colWidths[col] == ColumnWidth(values, col)
      decreases |colNames|
    {
      var col :| col in colNames;
      var maxFieldLength := MaxFieldLength(values, col);
      colWidths := colWidths[col := if maxFieldLength > |col| then maxFieldLength else |col|];
      colNames := colNames - {col};
    }
  }

  // ---------------------------------------------------------------------------
  // printValue

  const COLUMN_SEPARATION: nat := 2
  const SPACE: int := 0x20

  function Spaces(n: nat): (r: WString)
    ensures |r| == n && forall i :: 0 <= i < n ==> r[i] == SPACE
  {
    seq(n, _ => SPACE)
  }

  /** What printValue writes for a value in a column of the given width. */
  function PrintedValue(width: nat, val: WString, alignRight: bool): WString {
    if !alignRight then
      val + Spaces(if |val| < width + COLUMN_SEPARATION then width + COLUMN_SEPARATION - |val| else 0)
    else
      Spaces(if |val| < width then width - |val| else 0) + val + Spaces(COLUMN_SEPARATION)
  }

  /** printValue. The width of a column missing from the map is read as 0,
      and the lookup adds it to the map with that value. */
  method PrintValue(colWidths: map<string, nat>, col: string, val: WString, alignRight: bool)
    returns (out: WString, widths: map<string, nat>)
    ensures widths == if col in colWidths then colWidths else colWidths[col := 0]
    ensures out == PrintedValue(widths[col], val, alignRight)
  {
    widths := if col in colWidths then colWidths else colWidths[col := 0];
    var width := widths[col];
    out := [];
    if !alignRight {
      out := out + val;
      var i := |val|;
      while i < width + COLUMN_SEPARATION
        invariant |val| <= i <= if |val| > width + COLUMN_SEPARATION then |val| else width + COLUMN_SEPARATION
        invariant out == val + Spaces(i - |val|)
        decreases width + COLUMN_SEPARATION - i
      {
        out := out + [SPACE];
        i := i + 1;
      }
    } else {
      var i := |val|;
      while i < width
        invariant |val| <= i <= if |val| > width then |val| else width
        invariant out == Spaces(i - |val|)
        decreases width - i
      {
        out := out + [SPACE];
        i := i + 1;
      }
      out := out + val;
      assert out == Spaces(if |val| < width then width - |val| else 0) + val + Spaces(0);
      for j := 0 to COLUMN_SEPARATION
        invariant out == Spaces(if |val| < width then width - |val| else 0) + val + Spaces(j)
      {
        out := out + [SPACE];
      }
    }
  }

  /** The layout of a printed value: left-aligned it is the value then spaces,
      max(|v|, w + 2) characters; right-aligned it is spaces, the value, then
      the two separating spaces, max(|v|, w) + 2 characters. */
  lemma PrintedValueLayout(width: nat, val: WString, alignRight: bool)
    ensures var r := PrintedValue(width, val, alignRight);
      !alignRight ==>
        |r| == (if |val| > width + 2 then |val| else width + 2) &&
        r[..|val|] == val &&
        forall i :: |val| <= i < |r| ==> r[i] == SPACE
    ensures var r := PrintedValue(width, val, alignRight);
      alignRight ==>
        |r| == (if |val| > width then |val| else width) + 2 &&
        r[|r| - 2 - |val|..|r| - 2] == val &&
        forall i :: 0 <= i < |r| && !(|r| - 2 - |val| <= i < |r| - 2) ==> r[i] == SPACE
  {
    var r := PrintedValue(width, val, alignRight);
    if !alignRight {
      assert r[..|val|] == val;
    } else {
      var pad := Spaces(if |val| < width then width - |val| else 0);
      assert r == pad + val + Spaces(2);
      assert r[|pad|..|pad| + |val|] == val;
    }
  }

  /** Columns line up: every value that fits in the column takes the same
      room, the width plus the separation. */
  lemma PrintedValuesAlign(width: nat, a: WString, b: WString, alignRight: bool)
    requires |a| <= width && |b| <= width
    ensures |PrintedValue(width, a, alignRight)| == |PrintedValue(width, b, alignRight)| == width + COLUMN_SEPARATION
  {
    PrintedValueLayout(width, a, alignRight);
    PrintedValueLayout(width, b, alignRight);
  }
}
