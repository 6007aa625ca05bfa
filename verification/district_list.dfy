/**
  The electoral-district list of one status tab: which districts it lists,
  whether it shows a table, a loading message, an empty-state prompt with a
  Create button, or nothing, and, for the table, its header columns, the
  cells of every row, the per-row badge and Suspend/Recover action, the
  footer count and the navigation link to the district's polling divisions.
  Rendering is described by values (`View`, `Column`, `Cell`) rather than
  markup.
 */
module DistrictList {
  import opened Optional
  import Decimal
  import Text
  import QueryString

  /** The three status tabs. */
  datatype Status = All | Active | Inactive

  datatype District = District(
    id: nat,
    name: string,
    currentVoters: nat,
    isActive: bool,
    createdAt: string)

  /** Whether the tab for `status` lists `d`. */
  predicate Shown(status: Status, d: District)
  {
    match status
    case All => true
    case Active => d.isActive
    case Inactive => !d.isActive
  }

  /** The districts the tab for `status` lists, in the order given. */
  function Filtered(items: seq<District>, status: Status): (shown: seq<District>)
    ensures |shown| <= |items|
    ensures forall k :: 0 <= k < |shown| ==> Shown(status, shown[k])
    decreases |items|
  {
    if |items| == 0 then []
    else (if Shown(status, items[0]) then [items[0]] else []) + Filtered(items[1..], status)
  }

  // ---------------------------------------------------------------------------
  // Facts about the filter
  // ---------------------------------------------------------------------------

  /** Filtering a concatenation filters each half and keeps them in order. */
  lemma {:induction false} FilteredConcat(a: seq<District>, b: seq<District>, status: Status)
    ensures Filtered(a + b, status) == Filtered(a, status) + Filtered(b, status)
    decreases |a|
  {
    if |a| == 0 {
      assert a + b == b;
    } else {
      assert (a + b)[0] == a[0];
      assert (a + b)[1..] == a[1..] + b;
      FilteredConcat(a[1..], b, status);
      var h := if Shown(status, a[0]) then [a[0]] else [];
      var x, y := Filtered(a[1..], status), Filtered(b, status);
      assert Filtered(a + b, status) == h + (x + y);
      assert h + (x + y) == (h + x) + y;
    }
  }

  /** A district is listed exactly when it is among the items and the tab
      shows it. */
  lemma {:induction false} FilteredMembers(items: seq<District>, status: Status, d: District)
    ensures d in Filtered(items, status) <==> d in items && Shown(status, d)
    decreases |items|
  {
    if |items| > 0 {
      FilteredMembers(items[1..], status, d);
      assert items == [items[0]] + items[1..];
    }
  }

  /** The `all` tab lists every item in its original order. */
  lemma {:induction false} FilteredAll(items: seq<District>)
    ensures Filtered(items, All) == items
    decreases |items|
  {
    if |items| > 0 {
      FilteredAll(items[1..]);
      assert items == [items[0]] + items[1..];
    }
  }

  /** The `active` and `inactive` tabs split the items between them: every
      item is listed on exactly one of them, as often as it occurs. */
  lemma {:induction false} FilteredSplitsItems(items: seq<District>)
    ensures multiset(Filtered(items, Active)) + multiset(Filtered(items, Inactive)) == multiset(items)
    decreases |items|
  {
    if |items| > 0 {
      var head, rest := [items[0]], items[1..];
      assert items == head + rest;
      FilteredSplitsItems(rest);
      FilteredSplitsOne(items[0]);
      FilteredConcat(head, rest, Active);
      FilteredConcat(head, rest, Inactive);
    }
  }

  lemma FilteredSplitsOne(d: District)
    ensures multiset(Filtered([d], Active)) + multiset(Filtered([d], Inactive)) == multiset([d])
  {
    assert [d][1..] == [];
    if d.isActive {
      assert Filtered([d], Active) == [d] && Filtered([d], Inactive) == [];
    } else {
      assert Filtered([d], Active) == [] && Filtered([d], Inactive) == [d];
    }
  }

  /** The lengths of the `active` and `inactive` tabs add up to the length
      of the `all` tab. */
  lemma FilteredLengths(items: seq<District>)
    ensures |Filtered(items, Active)| + |Filtered(items, Inactive)| == |Filtered(items, All)|
  {
    FilteredSplitsItems(items);
    FilteredAll(items);
    assert |multiset(Filtered(items, Active))| + |multiset(Filtered(items, Inactive))| == |multiset(items)|;
  }

  /** Filtering an already filtered list changes nothing. */
  lemma {:induction false} FilteredIdempotent(items: seq<District>, status: Status)
    ensures Filtered(Filtered(items, status), status) == Filtered(items, status)
    decreases |items|
  {
    if |items| > 0 {
      FilteredIdempotent(items[1..], status);
      var head := if Shown(status, items[0]) then [items[0]] else [];
      FilteredConcat(head, Filtered(items[1..], status), status);
      if Shown(status, items[0]) {
        assert head[1..] == [];
      }
    }
  }

  /** A tab lists something exactly when some item matches it. */
  lemma FilteredNonEmpty(items: seq<District>, status: Status)
    ensures |Filtered(items, status)| > 0 <==> exists i :: 0 <= i < |items| && Shown(status, items[i])
  {
    var shown := Filtered(items, status);
    if |shown| > 0 {
      FilteredMembers(items, status, shown[0]);
    }
    if i :| 0 <= i < |items| && Shown(status, items[i]) {
      FilteredMembers(items, status, items[i]);
    }
  }

  /** Filtering one more item of a prefix appends it when the tab shows it. */
  lemma FilteredSnoc(items: seq<District>, i: nat, status: Status)
    requires i < |items|
    ensures Filtered(items[..i + 1], status)
         == Filtered(items[..i], status) + (if Shown(status, items[i]) then [items[i]] else [])
  {
    FilteredConcat(items[..i], [items[i]], status);
    assert items[..i + 1] == items[..i] + [items[i]];
  }

  /** `from` holds, in increasing order, exactly the positions below `i`
      whose item the tab for `status` shows. */
  predicate Enumerates(items: seq<District>, status: Status, i: nat, from: seq<nat>)
  {
    && i <= |items|
    && (forall k :: 0 <= k < |from| ==> from[k] < i)
    && (forall k, l :: 0 <= k < l < |from| ==> from[k] < from[l])
    && (forall j :: 0 <= j < i ==> (Shown(status, items[j]) <==> j in from))
  }

  /** `shown` lists the items at the positions `from`, one for one. */
  predicate ListedAt(items: seq<District>, shown: seq<District>, from: seq<nat>)
  {
    && |from| == |shown|
    && forall k :: 0 <= k < |from| ==> from[k] < |items| && shown[k] == items[from[k]]
  }

  lemma EnumeratesStep(items: seq<District>, status: Status, i: nat, from: seq<nat>)
    requires i < |items| && Enumerates(items, status, i, from)
    ensures Enumerates(items, status, i + 1, if Shown(status, items[i]) then from + [i] else from)
  {
    assert i !in from;
    if Shown(status, items[i]) {
      var from' := from + [i];
      assert forall k :: 0 <= k < |from| ==> from'[k] == from[k];
      assert forall j :: j in from' <==> j in from || j == i;
    }
  }

  lemma ListedAtStep(items: seq<District>, i: nat, shown: seq<District>, from: seq<nat>)
    requires i < |items| && ListedAt(items, shown, from)
    ensures ListedAt(items, shown + [items[i]], from + [i])
  {
    var shown', from' := shown + [items[i]], from + [i];
    assert forall k :: 0 <= k < |from| ==> from'[k] == from[k] && shown'[k] == shown[k];
  }

  /** After the first `i` items: `shown` is their filtered list, and `from`
      records where each listed item came from. */
  predicate Progress(items: seq<District>, status: Status, i: nat, shown: seq<District>, from: seq<nat>)
  {
    && i <= |items|
    && shown == Filtered(items[..i], status)
    && Enumerates(items, status, i, from)
    && ListedAt(items, shown, from)
  }

  lemma ProgressStep(items: seq<District>, status: Status, i: nat, shown: seq<District>, from: seq<nat>)
    requires i < |items| && Progress(items, status, i, shown, from)
    ensures Shown(status, items[i]) ==> Progress(items, status, i + 1, shown + [items[i]], from + [i])
    ensures !Shown(status, items[i]) ==> Progress(items, status, i + 1, shown, from)
  {
    FilteredSnoc(items, i, status);
    EnumeratesStep(items, status, i, from);
    if Shown(status, items[i]) {
      ListedAtStep(items, i, shown, from);
    }
  }

  /** The filter as the component runs it, one item at a time. Besides the
      listed districts it yields the positions they came from: exactly the
      positions of the matching items, in increasing order, which is what
      "order preserved" means. */
  method FilterItems(items: seq<District>, status: Status) returns (shown: seq<District>, from: seq<nat>)
    ensures shown == Filtered(items, status)
    ensures Enumerates(items, status, |items|, from)
    ensures ListedAt(items, shown, from)
  {
    shown, from := [], [];
    var i: nat := 0;
    assert items[..0] == [];
    while i < |items|
      invariant Progress(items, status, i, shown, from)
    {
      ProgressStep(items, status, i, shown, from);
      if Shown(status, items[i]) {
        shown, from := shown + [items[i]], from + [i];
      }
      i := i + 1;
    }
    assert items[..i] == items;
  }

  // ---------------------------------------------------------------------------
  // Table columns and cells
  // ---------------------------------------------------------------------------

  datatype Column =
    | NameColumn
    | VotersColumn
    | StatusColumn
    | CreatedAtColumn
    | ElectorateColumn
    | EditColumn
    | SuspendColumn

  datatype Badge = Badge(variant: string, text: string)

  /** The state-changing dialog a row offers. */
  datatype Action = SuspendConfirm | RecoverConfirm

  datatype Cell =
    | NameCell(name: string)
    | VotersCell(voters: nat)
    | BadgeCell(badge: Badge)
    | CreatedAtCell(createdAt: string)
    | LinkCell(pathname: string, search: string)
    | EditCell(item: District)
    | ActionCell(action: Action, item: District)

  datatype Row = Row(key: nat, cells: seq<Cell>)

  datatype Footer = Footer(count: nat, noun: string)

  datatype View =
    | Table(header: seq<Column>, rows: seq<Row>, footer: Footer)
    | LoadingMessage
    | EmptyState(createExtraText: string)
    | Nothing

  /** The header columns of the table on the tab for `status`. */
  function Header(status: Status): (columns: seq<Column>)
    ensures ElectorateColumn in columns <==> status != Inactive
    ensures EditColumn in columns <==> status != Inactive
    ensures |columns| == if status == Inactive then 5 else 7
    ensures columns[..4] == [NameColumn, VotersColumn, StatusColumn, CreatedAtColumn]
    ensures status != Inactive ==> columns[4] == ElectorateColumn && columns[5] == EditColumn
    ensures columns[|columns| - 1] == SuspendColumn
  {
    [NameColumn, VotersColumn, StatusColumn, CreatedAtColumn]
    + (if status != Inactive then [ElectorateColumn] else [])
    + (if status != Inactive then [EditColumn] else [])
    + [SuspendColumn]
  }

  /** The status badge of a district. */
  function BadgeFor(d: District): (b: Badge)
    ensures b.text == "Active" && b.variant == "outline" <==> d.isActive
    ensures b.text == "Inactive" && b.variant == "secondary" <==> !d.isActive
  {
    Badge(if d.isActive then "outline" else "secondary", if d.isActive then "Active" else "Inactive")
  }

  /** The action a row offers: Recover for an inactive district, Suspend for
      an active one, never both. */
  function ActionFor(d: District): (a: Action)
    ensures a == RecoverConfirm <==> !d.isActive
    ensures a == SuspendConfirm <==> d.isActive
  {
    if !d.isActive then RecoverConfirm else SuspendConfirm
  }

  /** The query string of a row's link to the district's polling divisions:
      the id and the name, inserted without any encoding. */
  function LinkSearch(d: District): (search: string)
    ensures |search| == 16 + |Decimal.FromNat(d.id)| + |d.name|
    ensures search[..10] == "?district="
    ensures search[10..10 + |Decimal.FromNat(d.id)|] == Decimal.FromNat(d.id)
    ensures search[10 + |Decimal.FromNat(d.id)|..] == "&name=" + d.name
    ensures search[|search| - |d.name|..] == d.name
  {
    "?district=" + Decimal.FromNat(d.id) + "&name=" + d.name
  }

  /** The cells of the row for `d` on the tab for `status`. */
  function RowCells(d: District, status: Status): (cells: seq<Cell>)
    ensures |cells| == if status == Inactive then 6 else 7
  {
    var link := LinkCell("/electorates", LinkSearch(d));
    var action := ActionCell(ActionFor(d), d);
    if status != Inactive then
      [NameCell(d.name), VotersCell(d.currentVoters), BadgeCell(BadgeFor(d)), CreatedAtCell(d.createdAt), link, EditCell(d), action]
    else
      [NameCell(d.name), VotersCell(d.currentVoters), BadgeCell(BadgeFor(d)), CreatedAtCell(d.createdAt), link, action]
  }

  /** Every row carries the link whatever the tab, carries the Edit cell
      exactly on the `all` and `active` tabs, and ends with its one action
      cell. */
  lemma RowShape(d: District, status: Status)
    ensures var cells := RowCells(d, status);
      && cells[..4] == [NameCell(d.name), VotersCell(d.currentVoters), BadgeCell(BadgeFor(d)), CreatedAtCell(d.createdAt)]
      && cells[4] == LinkCell("/electorates", LinkSearch(d))
      && (status != Inactive ==> cells[5] == EditCell(d))
      && ((exists k :: 0 <= k < |cells| && cells[k].EditCell?) <==> status != Inactive)
      && cells[|cells| - 1] == ActionCell(ActionFor(d), d)
      && forall k :: 0 <= k < |cells| - 1 ==> !cells[k].ActionCell?
  {
    var cells := RowCells(d, status);
    if status != Inactive {
      assert cells[5].EditCell?;
    }
  }

  /** The table row of `d`: keyed by the district's id, holding its cells. */
  function RowFor(d: District, status: Status): (row: Row)
    ensures row.key == d.id
    ensures row.cells == RowCells(d, status)
  {
    Row(d.id, RowCells(d, status))
  }

  /** The header column a cell belongs under. */
  function ColumnOf(cell: Cell): Column
  {
    match cell
    case NameCell(_) => NameColumn
    case VotersCell(_) => VotersColumn
    case BadgeCell(_) => StatusColumn
    case CreatedAtCell(_) => CreatedAtColumn
    case LinkCell(_, _) => ElectorateColumn
    case EditCell(_) => EditColumn
    case ActionCell(_, _) => SuspendColumn
  }

  /** A row lines up with the header when it has one cell per column and
      every cell sits under its own column. */
  predicate Aligned(header: seq<Column>, cells: seq<Cell>)
  {
    |header| == |cells| && forall k :: 0 <= k < |cells| ==> ColumnOf(cells[k]) == header[k]
  }

  /** Rows line up with the header on the `all` and `active` tabs, and on
      those tabs only. */
  lemma RowAlignedIff(d: District, status: Status)
    ensures Aligned(Header(status), RowCells(d, status)) <==> status != Inactive
  {
    if status != Inactive {
      ListedRowAligned(d, status);
    }
  }

  lemma ListedRowAligned(d: District, status: Status)
    requires status != Inactive
    ensures Aligned(Header(status), RowCells(d, status))
  {
    var header, cells := Header(status), RowCells(d, status);
    var columns := [NameColumn, VotersColumn, StatusColumn, CreatedAtColumn, ElectorateColumn, EditColumn, SuspendColumn];
    assert header == columns;
    assert |cells| == 7;
    forall k | 0 <= k < 7
      ensures ColumnOf(cells[k]) == columns[k]
    {
      CellColumn(d, status, k);
    }
  }

  lemma CellColumn(d: District, status: Status, k: nat)
    requires status != Inactive && k < 7
    ensures ColumnOf(RowCells(d, status)[k]) == [NameColumn, VotersColumn, StatusColumn, CreatedAtColumn, ElectorateColumn, EditColumn, SuspendColumn][k]
  {
    var cells := RowCells(d, status);
    assert cells == [NameCell(d.name), VotersCell(d.currentVoters), BadgeCell(BadgeFor(d)), CreatedAtCell(d.createdAt),
                     LinkCell("/electorates", LinkSearch(d)), EditCell(d), ActionCell(ActionFor(d), d)];
  }

  /** On the `inactive` tab the header drops the Electorate column but every
      row still carries the link cell, so a row has one cell more than the
      header and the link sits under the Suspend column. */
  lemma InactiveRowOverflows(d: District)
    ensures |RowCells(d, Inactive)| == |Header(Inactive)| + 1
    ensures Header(Inactive)[4] == SuspendColumn && RowCells(d, Inactive)[4].LinkCell?
  {
  }

  /** The footer under a table of `n` districts. */
  function FooterFor(n: nat): (f: Footer)
    ensures f.count == n
    ensures f.noun == "electoral districts" <==> n > 1
    ensures f.noun == "electoral district" <==> n <= 1
  {
    Footer(n, if n > 1 then "electoral districts" else "electoral district")
  }

  /** What the tab for `status` shows, given the fetched items and whether
      the fetch is still running. */
  function Render(items: seq<District>, status: Status, loading: bool): (v: View)
    ensures v.Table? <==> exists i :: 0 <= i < |items| && Shown(status, items[i])
    ensures v.Nothing? ==> status == Inactive
    ensures v.LoadingMessage? ==> loading && status != Inactive
    ensures v.EmptyState? ==> !loading && status != Inactive && v.createExtraText == "Election"
    ensures !v.Table? && status != Inactive ==> (v.LoadingMessage? <==> loading)
    ensures v.Table? ==> v.header == Header(status)
    ensures v.Table? ==> |v.rows| == v.footer.count == |Filtered(items, status)|
    ensures v.Table? ==> v.footer == FooterFor(|Filtered(items, status)|)
    ensures v.Table? ==> forall k :: 0 <= k < |v.rows| ==> v.rows[k] == RowFor(Filtered(items, status)[k], status)
  {
    FilteredNonEmpty(items, status);
    var shown := Filtered(items, status);
    if |shown| > 0 then
      Table(
        Header(status),
        seq(|shown|, k requires 0 <= k < |shown| => RowFor(shown[k], status)),
        FooterFor(|shown|))
    else if status != Inactive then
      if loading then LoadingMessage else EmptyState("Election")
    else
      Nothing
  }

  /** The number of table rows a view shows. */
  function RowCount(v: View): nat
  {
    if v.Table? then |v.rows| else 0
  }

  /** Whatever the loading flag, the `active` and `inactive` tabs together
      show as many rows as the `all` tab, and the `all` tab shows one row
      per item. */
  lemma TabsShareRows(items: seq<District>, loading: bool)
    ensures RowCount(Render(items, All, loading)) == |items|
    ensures RowCount(Render(items, Active, loading)) + RowCount(Render(items, Inactive, loading))
         == RowCount(Render(items, All, loading))
  {
    TabRowCount(items, All, loading);
    TabRowCount(items, Active, loading);
    TabRowCount(items, Inactive, loading);
    FilteredLengths(items);
    FilteredAll(items);
  }

  /** A tab shows one table row per district it lists. */
  lemma TabRowCount(items: seq<District>, status: Status, loading: bool)
    ensures RowCount(Render(items, status, loading)) == |Filtered(items, status)|
  {
    FilteredNonEmpty(items, status);
  }

  /** On the `active` tab every row shows the Active badge and offers
      Suspend; on the `inactive` tab every row shows the Inactive badge and
      offers Recover and no Edit. */
  lemma TabRowsAgreeWithTab(items: seq<District>, status: Status, loading: bool, k: nat)
    requires Render(items, status, loading).Table?
    requires k < |Render(items, status, loading).rows|
    ensures var cells := Render(items, status, loading).rows[k].cells;
      && (status == Active ==> cells[2] == BadgeCell(Badge("outline", "Active")) && cells[|cells| - 1].action == SuspendConfirm)
      && (status == Inactive ==>
            && cells[2] == BadgeCell(Badge("secondary", "Inactive"))
            && cells[|cells| - 1].action == RecoverConfirm
            && forall j :: 0 <= j < |cells| ==> !cells[j].EditCell?)
  {
    var shown := Filtered(items, status);
    FilteredMembers(items, status, shown[k]);
    ShownRowAgrees(shown[k], status);
  }

  /** The row of a district that the tab lists agrees with the tab. */
  lemma ShownRowAgrees(d: District, status: Status)
    requires Shown(status, d)
    ensures var cells := RowCells(d, status);
      && (status == Active ==> cells[2] == BadgeCell(Badge("outline", "Active")) && cells[|cells| - 1].action == SuspendConfirm)
      && (status == Inactive ==>
            && cells[2] == BadgeCell(Badge("secondary", "Inactive"))
            && cells[|cells| - 1].action == RecoverConfirm
            && forall j :: 0 <= j < |cells| ==> !cells[j].EditCell?)
  {
  }

  // ---------------------------------------------------------------------------
  // The link's query string, read back
  // ---------------------------------------------------------------------------

  /** A link search string without its `?`: the district part, then the
      name part, separated by `&`. */
  lemma SearchBody(id: string, name: string)
    ensures ("?district=" + id + "&name=" + name)[1..] == ("district=" + id) + ['&'] + ("name=" + name)
  {
    Regroup("?district=", id, "&name=", name);
    assert "?district=" == "?" + "district=";
    assert "&name=" == ['&'] + "name=";
    Regroup("district=", id, ['&'], "name=" + name);
  }

  /** Sequence concatenation regrouped. */
  lemma Regroup(a: string, b: string, c: string, e: string)
    ensures a + b + c + e == a + (b + c + e)
    ensures a + b + c + e == (a + b) + c + e
  {
  }

  lemma DistrictPartNoAmpersand(id: string)
    requires Decimal.AllDigits(id)
    ensures '&' !in "district=" + id
  {
    var first := "district=" + id;
    assert forall i :: 9 <= i < |first| ==> first[i] == id[i - 9];
  }

  /** Splitting `first&name=<name>` at `&` starts with `first` and the name
      part cut at the name's first `&`. */
  lemma SplitNamePart(first: string, name: string)
    requires '&' !in first
    ensures var parts := Text.Split(first + ['&'] + ("name=" + name), '&');
      |parts| >= 2 && parts[0] == first && parts[1] == "name=" + Text.SplitFirst(name, '&').0
  {
    var cut := Text.SplitFirst(name, '&');
    var second := "name=" + cut.0;
    assert '&' !in second;
    if '&' in name {
      assert "name=" + name == second + ['&'] + cut.1;
      Text.SplitCons(second, cut.1, '&');
    } else {
      Text.SplitNoSep("name=" + name, '&');
    }
    Text.SplitCons(first, "name=" + name, '&');
  }

  /** The `&`-separated parts of a link search string after its `?`: the
      district part, then the name part cut at the name's first `&`. */
  lemma SearchParts(id: string, name: string)
    requires Decimal.AllDigits(id)
    ensures var parts := Text.Split(("?district=" + id + "&name=" + name)[1..], '&');
      && |parts| >= 2
      && parts[0] == "district" + "=" + id
      && parts[1] == "name" + "=" + Text.SplitFirst(name, '&').0
  {
    SearchBody(id, name);
    DistrictPartNoAmpersand(id);
    SplitNamePart("district=" + id, name);
    assert "district" + "=" + id == "district=" + id;
    assert "name" + "=" + Text.SplitFirst(name, '&').0 == "name=" + Text.SplitFirst(name, '&').0;
  }

  /** The first two parameters of a link search string built from a
      decimal id and a name: the id, and the name up to its first `&`. */
  lemma SearchParams(id: string, name: string)
    requires Decimal.AllDigits(id)
    ensures var ps := QueryString.Params("?district=" + id + "&name=" + name);
      && |ps| >= 2
      && ps[0] == ("district", id)
      && ps[1] == ("name", Text.SplitFirst(name, '&').0)
  {
    var nameCut := Text.SplitFirst(name, '&');
    var search := "?district=" + id + "&name=" + name;
    SearchParts(id, name);
    KeyParam("district", id);
    KeyParam("name", nameCut.0);
    assert search[0] == '?';
    ParamsAfterMark(search);
  }

  /** The pairs of a search string that starts with `?` are its `&`-parts
      after the `?`, each cut at its first `=`. */
  lemma ParamsAfterMark(search: string)
    requires |search| > 0 && search[0] == '?'
    ensures var parts := Text.Split(search[1..], '&');
      && |QueryString.Params(search)| == |parts|
      && forall k :: 0 <= k < |parts| ==> QueryString.Params(search)[k] == QueryString.Param(parts[k])
  {
  }

  /** A `key=value` part whose key has no `=` reads as that key and value. */
  lemma KeyParam(key: string, value: string)
    requires '=' !in key
    ensures QueryString.Param(key + "=" + value) == (key, value)
  {
    assert key + "=" + value == key + ['='] + value;
    Text.SplitFirstCons(key, value, '=');
  }

  /** The first two parameters of a row's link: the district's id and its
      name up to the first `&`. */
  lemma LinkParams(d: District)
    ensures var ps := QueryString.Params(LinkSearch(d));
      && |ps| >= 2
      && ps[0] == ("district", Decimal.FromNat(d.id))
      && ps[1] == ("name", Text.SplitFirst(d.name, '&').0)
  {
    SearchParams(Decimal.FromNat(d.id), d.name);
  }

  /** The split-only reader (`QueryString`) takes back the district's id
      from the link's `district` parameter. */
  lemma LinkDistrictRecovered(d: District)
    ensures var value := QueryString.Lookup(QueryString.Params(LinkSearch(d)), "district");
      value.Some? && Decimal.ToNat(value.value) == Some(d.id)
  {
    LinkParams(d);
    Decimal.ToNatFromNat(d.id);
  }

  /** The split-only reader (`QueryString`) takes back the district's name
      from the link's `name` parameter exactly when the name contains no
      `&`; otherwise the name is cut at its first `&`. */
  lemma LinkNameRecoveredIff(d: District)
    ensures QueryString.Lookup(QueryString.Params(LinkSearch(d)), "name") == Some(d.name) <==> '&' !in d.name
  {
    LinkParams(d);
    var ps := QueryString.Params(LinkSearch(d));
    assert ps[0].0 != "name";
    assert QueryString.Lookup(ps, "name") == Some(Text.SplitFirst(d.name, '&').0);
    if '&' in d.name {
      assert |Text.SplitFirst(d.name, '&').0| < |d.name|;
    }
  }
}
