/** buildCommentText.ts: the merge-request comment that compares the
    component sizes of a feature branch with those of the default branch. */
module CommentText {
  import opened Wrappers
  import opened Text
  import opened Reports
  import opened Converter

  /** COMPONENT_SIZE_REPORT_MARKER: the invisible first line by which later
      runs recognise the comment. */
  const Marker: string := "<!-- component-size-report -->"

  const Disclaimer: string := "<sub>Please don't reply to this comment, it may be removed by CI.</sub>"

  /** The whole comment when nothing differs. */
  const NoDifferences: string := Marker + "\n" + NoDifferencesLine + "\n\n" + Disclaimer

  const NoDifferencesLine: string := "No component size differences"

  const TableHeader: string := "|Component|Size|\n|--- |--- |\n"

  const JsLabel: string := "\U{2514}\U{2500} JS"
  const CssLabel: string := "\U{2514}\U{2500} CSS"
  const AddedMark: string := "\U{1F6A8} Added"
  const NewPrefix: string := "\U{1F6A8} "
  const Larger: string := " \U{1F494} +"
  const Smaller: string := " \U{1F49A} -"
  const RemovedMark: string := "Kb \U{1F5D1} Removed"

  // ===========================================================================
  // The set difference

  /** `masterKeys.filter((name) => branch[name] === undefined)`. */
  function Removed(branch: Report, master: Report): seq<string> {
    if master == [] then []
    else
      (if Lookup(branch, master[0].name).None? then [master[0].name] else [])
      + Removed(branch, master[1..])
  }

  /** Whether the branch entry differs from the master's: absent there, or a
      different total, js or css. */
  predicate IsChanged(e: Entry, master: Report) {
    var prev := Lookup(master, e.name);
    prev.None? || e.size.total != prev.value.total || e.size.js != prev.value.js || e.size.css != prev.value.css
  }

  /** `Object.entries(branch).filter(...)`: new and updated components. */
  function Changed(branch: Report, master: Report): seq<Entry> {
    if branch == [] then []
    else
      (if IsChanged(branch[0], master) then [branch[0]] else [])
      + Changed(branch[1..], master)
  }

  /** A name is reported as removed exactly when master has it and the branch
      does not. */
  lemma {:induction false} RemovedIff(branch: Report, master: Report, name: string)
    ensures name in Removed(branch, master) <==> name in Names(master) && name !in Names(branch)
  {
    if master != [] {
      RemovedIff(branch, master[1..], name);
      assert Names(master) == [master[0].name] + Names(master[1..]);
    }
  }

  /** An entry is reported as changed exactly when it is in the branch and
      master does not hold that same size under that name. */
  lemma {:induction false} ChangedIff(branch: Report, master: Report, e: Entry)
    ensures e in Changed(branch, master) <==> e in branch && Lookup(master, e.name) != Some(e.size)
  {
    if branch != [] {
      ChangedIff(branch[1..], master, e);
      assert branch == [branch[0]] + branch[1..];
    }
  }

  // ===========================================================================
  // Rows

  function Abs(x: int): nat {
    if x < 0 then -x else x
  }

  /** formatSizeChange: the annotation after a component's size. */
  function FormatSizeChange(size: ComponentSize, prev: Option<ComponentSize>): (r: string)
    ensures prev.None? ==> r == AddedMark
    ensures r == "" <==> prev.Some? && size.total == prev.value.total
    ensures prev.Some? && size.total > prev.value.total ==>
              r == Larger + ShowInt(size.total - prev.value.total) + "Kb"
    ensures prev.Some? && size.total < prev.value.total ==>
              r == Smaller + ShowInt(prev.value.total - size.total) + "Kb"
  {
    if prev.None? then AddedMark
    else if size.total == prev.value.total then ""
    else
      var isLarger := size.total > prev.value.total;
      var difference := ShowInt(Abs(size.total - prev.value.total)) + "Kb";
      var vector := if isLarger then Larger else Smaller;
      vector + difference
  }

  // `Line`, `SubLines`, `ChangedTable` and `RemovedTable` are the text the
  // source builds; `RowLine`, `SubCells`, `ChangedCells` and `RemovedCells`
  // below are the same rows as a reader of the table sees them, and lemmas
  // tie each pair together.

  /** One line of the table, as the template literal `|${a}|${b}|\n`
      writes it. */
  function Line(component: string, size: string): string {
    "|" + component + "|" + size + "|\n"
  }

  /** formatComponentRow: the markdown lines of one component. */
  function FormatComponentRow(component: string, size: ComponentSize, prev: Option<ComponentSize>, isRemoved: bool): string {
    if isRemoved && prev.Some? then
      Line(component, ShowInt(prev.value.total) + RemovedMark)
      + Line(JsLabel, ShowInt(prev.value.js) + "Kb")
      + Line(CssLabel, ShowInt(prev.value.css) + "Kb")
    else
      var changeIndicator := FormatSizeChange(size, prev);
      var isNew := prev.None?;
      var prefix := if isNew then NewPrefix else "";
      var rows := Line(prefix + component, ShowInt(size.total) + "Kb"
                       + (if changeIndicator != "" then " " + changeIndicator else ""));
      if size.js > 0 || size.css > 0 then
        var rows := rows + Line(JsLabel, ShowInt(size.js) + "Kb");
        if size.css > 0 then rows + Line(CssLabel, ShowInt(size.css) + "Kb") else rows
      else rows
  }

  // ===========================================================================
  // The comment

  /** The `reduce` over the changed entries. */
  function ChangedTable(master: Report, changed: seq<Entry>): string {
    if changed == [] then ""
    else
      var e := changed[|changed| - 1];
      ChangedTable(master, changed[..|changed| - 1]) + FormatComponentRow(e.name, e.size, Lookup(master, e.name), false)
  }

  /** The `reduce` over the removed names, continuing the table `init`. */
  function RemovedTable(master: Report, removed: seq<string>, init: string): string
    requires forall i :: 0 <= i < |removed| ==> removed[i] in Names(master)
  {
    if removed == [] then init
    else
      var name := removed[|removed| - 1];
      var prev := Lookup(master, name);
      RemovedTable(master, removed[..|removed| - 1], init) + FormatComponentRow(name, prev.value, prev, true)
  }

  /** buildCommentText(branch, master). */
  function BuildCommentText(branch: Report, master: Report): string {
    var removed := Removed(branch, master);
    var changed := Changed(branch, master);
    if |removed| == 0 && |changed| == 0 then NoDifferences
    else
      RemovedInMaster(branch, master);
      var table := RemovedTable(master, removed, ChangedTable(master, changed));
      Marker + "\n" + TableHeader + table + "\n\n" + Disclaimer
  }

  lemma RemovedInMaster(branch: Report, master: Report)
    ensures forall i :: 0 <= i < |Removed(branch, master)| ==> Removed(branch, master)[i] in Names(master)
  {
    forall i | 0 <= i < |Removed(branch, master)|
      ensures Removed(branch, master)[i] in Names(master)
    {
      RemovedIff(branch, master, Removed(branch, master)[i]);
    }
  }

  // ===========================================================================
  // Reading the table back
  //
  // A markdown reader sees the table body as lines `|component|size|`, each ended
  // by a newline. `ParseTable` is that reader; the lemmas below show what it
  // reads in the text formatComponentRow and buildCommentText write.

  /** One table row `|component|size|`: the two columns of the table. */
  datatype Cell = Cell(component: string, size: string)

  /** The reader's view of `Line`: a row rendered from its cells. */
  function RowLine(c: Cell): string {
    "|" + c.component + "|" + c.size + "|"
  }

  /** Rows, each followed by a newline. */
  function RenderCells(cs: seq<Cell>): string {
    if cs == [] then "" else RenderCells(cs[..|cs| - 1]) + Line(cs[|cs| - 1].component, cs[|cs| - 1].size)
  }

  function ParseRowLine(line: string): Option<Cell> {
    var f := Split(line, '|');
    if |f| == 4 && f[0] == "" && f[3] == "" then Some(Cell(f[1], f[2])) else None
  }

  function ParseRowLines(lines: seq<string>): Option<seq<Cell>> {
    if lines == [] then Some([])
    else
      var c := ParseRowLine(lines[0]);
      var rest := ParseRowLines(lines[1..]);
      if c.Some? && rest.Some? then Some([c.value] + rest.value) else None
  }

  /** Reads a table body: every line must be a row, and the text must end
      with a newline (or be empty). */
  function ParseTable(s: string): Option<seq<Cell>> {
    var lines := Split(s, '\n');
    if lines[|lines| - 1] != "" then None else ParseRowLines(lines[..|lines| - 1])
  }

  /** Text that can sit inside a cell. */
  predicate Plain(s: string) {
    '|' !in s && '\n' !in s
  }

  predicate PlainCells(cs: seq<Cell>) {
    forall i :: 0 <= i < |cs| ==> Plain(cs[i].component) && Plain(cs[i].size)
  }

  function RowLines(cs: seq<Cell>): (ls: seq<string>)
    ensures |ls| == |cs| && forall i :: 0 <= i < |cs| ==> ls[i] == RowLine(cs[i])
  {
    if cs == [] then []
    else
      var front := cs[..|cs| - 1];
      assert forall i :: 0 <= i < |front| ==> front[i] == cs[i];
      RowLines(front) + [RowLine(cs[|cs| - 1])]
  }

  lemma ParseRow(c: Cell)
    requires Plain(c.component) && Plain(c.size)
    ensures ParseRowLine(RowLine(c)) == Some(c)
    ensures '\n' !in RowLine(c)
  {
    var parts := ["", c.component, c.size, ""];
    assert parts[1..][1..][1..] == [""];
    assert parts[1..][1..] == [c.size, ""];
    assert parts[1..] == [c.component, c.size, ""];
    assert Join([c.size, ""], '|') == c.size + "|";
    assert Join(parts[1..], '|') == c.component + "|" + c.size + "|";
    assert RowLine(c) == Join(parts, '|');
    SplitJoin(parts, '|');
  }

  lemma {:induction false} ParseRows(cs: seq<Cell>)
    requires PlainCells(cs)
    ensures ParseRowLines(RowLines(cs)) == Some(cs)
  {
    if cs != [] {
      ParseRow(cs[0]);
      ParseRows(cs[1..]);
      RowLinesRest(cs);
      assert cs == [cs[0]] + cs[1..];
    }
  }

  lemma {:induction false} RenderCellsJoin(cs: seq<Cell>)
    requires cs != []
    ensures RenderCells(cs) == Join(RowLines(cs), '\n') + "\n"
    decreases |cs|
  {
    var p, last := cs[..|cs| - 1], RowLine(cs[|cs| - 1]);
    RowLinesSnoc(cs);
    LineRowLine(cs[|cs| - 1]);
    if p != [] {
      RenderCellsJoin(p);
      var lp := RowLines(p);
      JoinSnoc(lp, last, '\n');
      NewlineStep(RenderCells(p), Join(lp, '\n'), last, Join(lp + [last], '\n'));
    }
  }

  /** String regrouping for the solver (a proof step with no meaning of its own). */
  lemma NewlineStep(rendered: string, joined: string, last: string, joinedAll: string)
    requires rendered == joined + "\n"
    requires joinedAll == joined + ['\n'] + last
    ensures rendered + last + "\n" == joinedAll + "\n"
  {
  }

  lemma LineRowLine(c: Cell)
    ensures Line(c.component, c.size) == RowLine(c) + "\n"
  {
  }

  lemma RowLinesSnoc(cs: seq<Cell>)
    requires cs != []
    ensures RowLines(cs) == RowLines(cs[..|cs| - 1]) + [RowLine(cs[|cs| - 1])]
  {
  }

  lemma RowLinesRest(cs: seq<Cell>)
    requires cs != []
    ensures RowLines(cs)[1..] == RowLines(cs[1..])
  {
    var ls, lr := RowLines(cs), RowLines(cs[1..]);
    forall i | 0 <= i < |lr| ensures ls[i + 1] == lr[i] {
      assert lr[i] == RowLine(cs[i + 1]);
    }
  }

  /** The reader reads back exactly the rows that were rendered, as long as
      no cell holds a `|` or a newline. */
  lemma ParseRenderCells(cs: seq<Cell>)
    requires PlainCells(cs)
    ensures ParseTable(RenderCells(cs)) == Some(cs)
  {
    ParseRows(cs);
    if cs == [] {
      assert Split("", '\n') == [""];
    } else {
      RenderCellsJoin(cs);
      var ls := RowLines(cs);
      forall i | 0 <= i < |ls| ensures '\n' !in ls[i] {
        ParseRow(cs[i]);
      }
      JoinSnoc(ls, "", '\n');
      assert Join(ls, '\n') + "\n" == Join(ls + [""], '\n');
      SplitJoin(ls + [""], '\n');
      assert (ls + [""])[..|ls|] == ls;
    }
  }

  lemma {:induction false} RenderCellsAppend(a: seq<Cell>, b: seq<Cell>)
    ensures RenderCells(a + b) == RenderCells(a) + RenderCells(b)
    decreases |b|
  {
    if b != [] {
      var b' := b[..|b| - 1];
      assert (a + b)[..|a + b| - 1] == a + b';
      RenderCellsAppend(a, b');
    } else {
      assert a + b == a;
    }
  }

  lemma RenderCellsSingle(c: Cell)
    ensures RenderCells([c]) == Line(c.component, c.size)
  {
    assert [c][..0] == [];
  }

  // ===========================================================================
  // What a row and the comment read as

  /** The size column of a present component: the total, then the
      annotation if there is one. */
  function SizeColumn(size: ComponentSize, prev: Option<ComponentSize>): string {
    var change := FormatSizeChange(size, prev);
    ShowInt(size.total) + "Kb" + (if change != "" then " " + change else "")
  }

  /** The JS and CSS lines under a present component, as cells (the
      reader's view of `SubLines`). */
  function SubCells(size: ComponentSize): seq<Cell> {
    if size.js > 0 || size.css > 0 then
      [Cell(JsLabel, ShowInt(size.js) + "Kb")] + (if size.css > 0 then [Cell(CssLabel, ShowInt(size.css) + "Kb")] else [])
    else []
  }

  /** The table rows of one component. */
  function RowCells(component: string, size: ComponentSize, prev: Option<ComponentSize>, isRemoved: bool): seq<Cell> {
    if isRemoved && prev.Some? then
      [ Cell(component, ShowInt(prev.value.total) + RemovedMark),
        Cell(JsLabel, ShowInt(prev.value.js) + "Kb"),
        Cell(CssLabel, ShowInt(prev.value.css) + "Kb") ]
    else
      [Cell((if prev.None? then NewPrefix else "") + component, SizeColumn(size, prev))] + SubCells(size)
  }

  lemma RenderCellsPair(a: Cell, b: Cell)
    ensures RenderCells([a, b]) == Line(a.component, a.size) + Line(b.component, b.size)
  {
    assert [a, b][..1] == [a];
    RenderCellsSingle(a);
  }

  lemma RenderCellsTriple(a: Cell, b: Cell, c: Cell)
    ensures RenderCells([a, b, c]) == RenderCells([a, b]) + Line(c.component, c.size)
  {
    assert [a, b, c][..2] == [a, b];
  }

  lemma FormatRemovedRowCells(component: string, size: ComponentSize, prev: ComponentSize)
    ensures FormatComponentRow(component, size, Some(prev), true) == RenderCells(RowCells(component, size, Some(prev), true))
  {
    var cs := RowCells(component, size, Some(prev), true);
    RenderCellsPair(cs[0], cs[1]);
    RenderCellsTriple(cs[0], cs[1], cs[2]);
  }

  /** The JS and CSS lines under a present component, as text. */
  function SubLines(size: ComponentSize): string {
    if size.js > 0 || size.css > 0 then
      Line(JsLabel, ShowInt(size.js) + "Kb") + (if size.css > 0 then Line(CssLabel, ShowInt(size.css) + "Kb") else "")
    else ""
  }

  lemma RenderSubCells(size: ComponentSize)
    ensures RenderCells(SubCells(size)) == SubLines(size)
  {
    var sub := SubCells(size);
    if |sub| == 1 {
      RenderCellsSingle(sub[0]);
    } else if |sub| == 2 {
      RenderCellsPair(sub[0], sub[1]);
    }
  }

  lemma FormatPresentRowSplit(component: string, size: ComponentSize, prev: Option<ComponentSize>)
    ensures FormatComponentRow(component, size, prev, false)
            == Line((if prev.None? then NewPrefix else "") + component, SizeColumn(size, prev)) + SubLines(size)
  {
    var head := Line((if prev.None? then NewPrefix else "") + component, SizeColumn(size, prev));
    if size.js > 0 || size.css > 0 {
      var js := Line(JsLabel, ShowInt(size.js) + "Kb");
      if size.css > 0 {
        var css := Line(CssLabel, ShowInt(size.css) + "Kb");
        assert head + js + css == head + (js + css);
      } else {
        assert js + "" == js;
      }
    } else {
      assert head + "" == head;
    }
  }

  lemma FormatPresentRowCells(component: string, size: ComponentSize, prev: Option<ComponentSize>)
    ensures FormatComponentRow(component, size, prev, false) == RenderCells(RowCells(component, size, prev, false))
  {
    var head := Cell((if prev.None? then NewPrefix else "") + component, SizeColumn(size, prev));
    var sub := SubCells(size);
    assert RowCells(component, size, prev, false) == [head] + sub;
    RenderCellsSingle(head);
    RenderCellsAppend([head], sub);
    RenderSubCells(size);
    FormatPresentRowSplit(component, size, prev);
  }

  lemma FormatComponentRowCells(component: string, size: ComponentSize, prev: Option<ComponentSize>, isRemoved: bool)
    ensures FormatComponentRow(component, size, prev, isRemoved) == RenderCells(RowCells(component, size, prev, isRemoved))
  {
    if isRemoved && prev.Some? {
      FormatRemovedRowCells(component, size, prev.value);
    } else {
      FormatPresentRowCells(component, size, prev);
    }
  }

  lemma PlainShowInt(i: int)
    ensures Plain(ShowInt(i)) && Plain(ShowInt(i) + "Kb")
  {
    var s := ShowInt(i);
    assert forall k :: 0 <= k < |s| ==> s[k] != '|' && s[k] != '\n';
  }

  lemma PlainMarks()
    ensures Plain(AddedMark) && Plain(Larger) && Plain(Smaller) && Plain("Kb") && Plain(" ")
  {
  }

  lemma PlainSizeChange(size: ComponentSize, prev: Option<ComponentSize>)
    ensures Plain(FormatSizeChange(size, prev))
  {
    PlainMarks();
    if prev.Some? && size.total > prev.value.total {
      var d := ShowInt(size.total - prev.value.total);
      PlainShowInt(size.total - prev.value.total);
      PlainConcat(Larger, d);
      PlainConcat(Larger + d, "Kb");
    } else if prev.Some? && size.total < prev.value.total {
      var d := ShowInt(prev.value.total - size.total);
      PlainShowInt(prev.value.total - size.total);
      PlainConcat(Smaller, d);
      PlainConcat(Smaller + d, "Kb");
    }
  }

  lemma PlainSizeColumn(size: ComponentSize, prev: Option<ComponentSize>)
    ensures Plain(SizeColumn(size, prev))
  {
    var change := FormatSizeChange(size, prev);
    var tail := if change != "" then " " + change else "";
    PlainMarks();
    PlainShowInt(size.total);
    PlainSizeChange(size, prev);
    PlainConcat(" ", change);
    PlainConcat(ShowInt(size.total) + "Kb", tail);
  }


  lemma PlainConcat(a: string, b: string)
    requires Plain(a) && Plain(b)
    ensures Plain(a + b)
  {
  }

  lemma PlainLabels()
    ensures Plain(JsLabel) && Plain(CssLabel) && Plain(NewPrefix) && Plain(RemovedMark)
  {
  }

  lemma PlainSubCells(size: ComponentSize)
    ensures PlainCells(SubCells(size))
  {
    PlainShowInt(size.js);
    PlainShowInt(size.css);
    PlainLabels();
  }

  lemma PlainRowCells(component: string, size: ComponentSize, prev: Option<ComponentSize>, isRemoved: bool)
    requires Plain(component)
    ensures PlainCells(RowCells(component, size, prev, isRemoved))
  {
    PlainLabels();
    if isRemoved && prev.Some? {
      PlainShowInt(prev.value.total);
      PlainShowInt(prev.value.js);
      PlainShowInt(prev.value.css);
      PlainConcat(ShowInt(prev.value.total), RemovedMark);
    } else {
      var head := Cell((if prev.None? then NewPrefix else "") + component, SizeColumn(size, prev));
      PlainConcat(if prev.None? then NewPrefix else "", component);
      PlainSizeColumn(size, prev);
      PlainSubCells(size);
      assert RowCells(component, size, prev, isRemoved) == [head] + SubCells(size);
      PlainCellsAppend([head], SubCells(size));
    }
  }


  /** A removed component reads as three rows: its name with its old total
      and the removal mark, then its old JS and CSS sizes. */
  lemma RemovedRowReads(component: string, size: ComponentSize, prev: ComponentSize)
    requires Plain(component)
    ensures ParseTable(FormatComponentRow(component, size, Some(prev), true)) == Some([
              Cell(component, ShowInt(prev.total) + "Kb \U{1F5D1} Removed"),
              Cell("\U{2514}\U{2500} JS", ShowInt(prev.js) + "Kb"),
              Cell("\U{2514}\U{2500} CSS", ShowInt(prev.css) + "Kb")])
  {
    FormatComponentRowCells(component, size, Some(prev), true);
    PlainRowCells(component, size, Some(prev), true);
    ParseRenderCells(RowCells(component, size, Some(prev), true));
  }

  /** A present component reads as one row with its name (marked when new)
      and its total with the annotation, then a JS row exactly when it has JS
      or CSS, and a CSS row exactly when it has CSS. */
  lemma PresentRowReads(component: string, size: ComponentSize, prev: Option<ComponentSize>)
    requires Plain(component)
    ensures var cs := ParseTable(FormatComponentRow(component, size, prev, false));
      && cs.Some?
      && |cs.value| == 1 + (if size.js > 0 || size.css > 0 then 1 else 0) + (if size.css > 0 then 1 else 0)
      && cs.value[0].component == (if prev.None? then "\U{1F6A8} " else "") + component
      && cs.value[0].size == ShowInt(size.total) + "Kb"
                            + (if FormatSizeChange(size, prev) == "" then "" else " " + FormatSizeChange(size, prev))
      && (size.js > 0 || size.css > 0 ==> cs.value[1] == Cell("\U{2514}\U{2500} JS", ShowInt(size.js) + "Kb"))
      && (size.css > 0 ==> cs.value[2] == Cell("\U{2514}\U{2500} CSS", ShowInt(size.css) + "Kb"))
  {
    FormatComponentRowCells(component, size, prev, false);
    PlainRowCells(component, size, prev, false);
    ParseRenderCells(RowCells(component, size, prev, false));
  }

  /** The rows of the changed components, in branch order (the reader's
      view of `ChangedTable`). */
  function ChangedCells(master: Report, changed: seq<Entry>): seq<Cell> {
    if changed == [] then []
    else
      var e := changed[|changed| - 1];
      ChangedCells(master, changed[..|changed| - 1]) + RowCells(e.name, e.size, Lookup(master, e.name), false)
  }

  /** The rows of the removed components, in master order (the reader's
      view of `RemovedTable`). */
  function RemovedCells(master: Report, removed: seq<string>): seq<Cell>
    requires forall i :: 0 <= i < |removed| ==> removed[i] in Names(master)
  {
    if removed == [] then []
    else
      var name := removed[|removed| - 1];
      var prev := Lookup(master, name);
      RemovedCells(master, removed[..|removed| - 1]) + RowCells(name, prev.value, prev, true)
  }

  /** The rows of the whole table. */
  function TableCells(branch: Report, master: Report): seq<Cell> {
    RemovedInMaster(branch, master);
    ChangedCells(master, Changed(branch, master)) + RemovedCells(master, Removed(branch, master))
  }

  lemma {:induction false} ChangedTableCells(master: Report, changed: seq<Entry>)
    ensures ChangedTable(master, changed) == RenderCells(ChangedCells(master, changed))
    decreases |changed|
  {
    if changed != [] {
      var e := changed[|changed| - 1];
      ChangedTableCells(master, changed[..|changed| - 1]);
      FormatComponentRowCells(e.name, e.size, Lookup(master, e.name), false);
      RenderCellsAppend(ChangedCells(master, changed[..|changed| - 1]), RowCells(e.name, e.size, Lookup(master, e.name), false));
    }
  }

  lemma {:induction false} RemovedTableCells(master: Report, removed: seq<string>, init: string)
    requires forall i :: 0 <= i < |removed| ==> removed[i] in Names(master)
    ensures RemovedTable(master, removed, init) == init + RenderCells(RemovedCells(master, removed))
    decreases |removed|
  {
    if removed != [] {
      var front, name := removed[..|removed| - 1], removed[|removed| - 1];
      assert forall i :: 0 <= i < |front| ==> front[i] in Names(master) by {
        assert forall i :: 0 <= i < |front| ==> front[i] == removed[i];
      }
      var prev := Lookup(master, name);
      var row := RowCells(name, prev.value, prev, true);
      RemovedTableCells(master, front, init);
      FormatComponentRowCells(name, prev.value, prev, true);
      assert RemovedTable(master, removed, init) == RemovedTable(master, front, init) + RenderCells(row);
      assert RemovedCells(master, removed) == RemovedCells(master, front) + row;
      RenderCellsAppend(RemovedCells(master, front), row);
      ConcatStep(RemovedTable(master, removed, init), RemovedTable(master, front, init), init,
                 RenderCells(RemovedCells(master, front)), RenderCells(row), RenderCells(RemovedCells(master, removed)));
    }
  }

  /** String regrouping for the solver (a proof step with no meaning of its own). */
  lemma ConcatStep(whole: string, front: string, init: string, rendered: string, last: string, renderedAll: string)
    requires whole == front + last
    requires front == init + rendered
    requires renderedAll == rendered + last
    ensures whole == init + renderedAll
  {
  }

  /** The two header rows of the table. */
  const HeaderCells: seq<Cell> := [Cell("Component", "Size"), Cell("--- ", "--- ")]

  /** A component name that can stand in the first column without being
      taken for a cell separator, a line break or a JS/CSS sub-row. */
  predicate ComponentName(name: string) {
    Plain(name) && name != JsLabel && name != CssLabel
  }

  predicate ComponentNames(r: Report) {
    forall i :: 0 <= i < |r| ==> ComponentName(r[i].name)
  }

  /** The first-column texts of the rows that are not JS/CSS sub-rows: one
      per component listed in the table. */
  function Headings(cs: seq<Cell>): seq<string> {
    if cs == [] then []
    else
      (if cs[0].component == JsLabel || cs[0].component == CssLabel then [] else [cs[0].component])
      + Headings(cs[1..])
  }

  /** What the first column shows for each changed component: its name,
      marked when master does not have it. */
  function ChangedHeadings(master: Report, changed: seq<Entry>): seq<string> {
    if changed == [] then []
    else
      var e := changed[|changed| - 1];
      ChangedHeadings(master, changed[..|changed| - 1])
      + [(if Lookup(master, e.name).None? then NewPrefix else "") + e.name]
  }

  lemma {:induction false} HeadingsAppend(a: seq<Cell>, b: seq<Cell>)
    ensures Headings(a + b) == Headings(a) + Headings(b)
  {
    if a != [] {
      assert (a + b)[1..] == a[1..] + b;
      HeadingsAppend(a[1..], b);
    } else {
      assert a + b == b;
    }
  }

  lemma HeadingsRow(component: string, size: ComponentSize, prev: Option<ComponentSize>, isRemoved: bool)
    requires ComponentName(component)
    ensures Headings(RowCells(component, size, prev, isRemoved))
            == [if isRemoved && prev.Some? then component else (if prev.None? then NewPrefix else "") + component]
  {
    var cs := RowCells(component, size, prev, isRemoved);
    var first := cs[0].component;
    if !(isRemoved && prev.Some?) && prev.None? {
      assert first[0] == '\U{1F6A8}';
      assert JsLabel[0] == '\U{2514}' && CssLabel[0] == '\U{2514}';
    }
    assert first != JsLabel && first != CssLabel;
    var sub := cs[1..];
    assert forall i :: 0 <= i < |sub| ==> sub[i].component == JsLabel || sub[i].component == CssLabel;
    HeadingsOfSubRows(sub);
    assert Headings(cs) == [first] + Headings(sub);
  }


  lemma {:induction false} HeadingsOfSubRows(cs: seq<Cell>)
    requires forall i :: 0 <= i < |cs| ==> cs[i].component == JsLabel || cs[i].component == CssLabel
    ensures Headings(cs) == []
  {
    if cs != [] {
      HeadingsOfSubRows(cs[1..]);
    }
  }

  lemma {:induction false} HeadingsChanged(master: Report, changed: seq<Entry>)
    requires forall i :: 0 <= i < |changed| ==> ComponentName(changed[i].name)
    ensures Headings(ChangedCells(master, changed)) == ChangedHeadings(master, changed)
    decreases |changed|
  {
    if changed != [] {
      var front, e := changed[..|changed| - 1], changed[|changed| - 1];
      HeadingsChanged(master, front);
      HeadingsRow(e.name, e.size, Lookup(master, e.name), false);
      HeadingsAppend(ChangedCells(master, front), RowCells(e.name, e.size, Lookup(master, e.name), false));
    }
  }

  lemma {:induction false} HeadingsRemoved(master: Report, removed: seq<string>)
    requires forall i :: 0 <= i < |removed| ==> removed[i] in Names(master) && ComponentName(removed[i])
    ensures Headings(RemovedCells(master, removed)) == removed
    decreases |removed|
  {
    if removed != [] {
      var front, name := removed[..|removed| - 1], removed[|removed| - 1];
      var prev := Lookup(master, name);
      var row := RowCells(name, prev.value, prev, true);
      assert RemovedCells(master, removed) == RemovedCells(master, front) + row;
      HeadingsRemoved(master, front);
      HeadingsRow(name, prev.value, prev, true);
      HeadingsAppend(RemovedCells(master, front), row);
      FrontLast(removed);
    }
  }

  lemma PlainCellsAppend(a: seq<Cell>, b: seq<Cell>)
    requires PlainCells(a) && PlainCells(b)
    ensures PlainCells(a + b)
  {
    forall i | 0 <= i < |a + b| ensures Plain((a + b)[i].component) && Plain((a + b)[i].size) {
      if i >= |a| {
        assert (a + b)[i] == b[i - |a|];
      }
    }
  }

  lemma {:induction false} PlainChangedCells(master: Report, changed: seq<Entry>)
    requires forall i :: 0 <= i < |changed| ==> Plain(changed[i].name)
    ensures PlainCells(ChangedCells(master, changed))
    decreases |changed|
  {
    if changed != [] {
      var front, e := changed[..|changed| - 1], changed[|changed| - 1];
      PlainChangedCells(master, front);
      PlainRowCells(e.name, e.size, Lookup(master, e.name), false);
      PlainCellsAppend(ChangedCells(master, front), RowCells(e.name, e.size, Lookup(master, e.name), false));
    }
  }

  lemma {:induction false} PlainRemovedCells(master: Report, removed: seq<string>)
    requires forall i :: 0 <= i < |removed| ==> removed[i] in Names(master) && Plain(removed[i])
    ensures PlainCells(RemovedCells(master, removed))
    decreases |removed|
  {
    if removed != [] {
      var front, name := removed[..|removed| - 1], removed[|removed| - 1];
      var prev := Lookup(master, name);
      PlainRemovedCells(master, front);
      PlainRowCells(name, prev.value, prev, true);
      PlainCellsAppend(RemovedCells(master, front), RowCells(name, prev.value, prev, true));
    }
  }

  /** The names the table lists come from the two reports. */
  lemma ListedNames(branch: Report, master: Report)
    requires ComponentNames(branch) && ComponentNames(master)
    ensures forall i :: 0 <= i < |Changed(branch, master)| ==> ComponentName(Changed(branch, master)[i].name)
    ensures forall i :: 0 <= i < |Removed(branch, master)| ==>
              Removed(branch, master)[i] in Names(master) && ComponentName(Removed(branch, master)[i])
  {
    var changed, removed := Changed(branch, master), Removed(branch, master);
    forall i | 0 <= i < |changed| ensures ComponentName(changed[i].name) {
      ChangedIff(branch, master, changed[i]);
    }
    forall i | 0 <= i < |removed| ensures removed[i] in Names(master) && ComponentName(removed[i]) {
      RemovedIff(branch, master, removed[i]);
    }
  }

  /** When there are differences, the comment is the marker, then a table
      that a markdown reader reads back row by row: the header, then the rows
      of the changed components in branch order (marked when new), then the
      rows of the removed components in master order; then the notice. */
  lemma CommentTable(branch: Report, master: Report)
    requires ComponentNames(branch) && ComponentNames(master)
    requires |Removed(branch, master)| > 0 || |Changed(branch, master)| > 0
    ensures var rows := HeaderCells + TableCells(branch, master);
      && BuildCommentText(branch, master) == Marker + "\n" + RenderCells(rows) + "\n\n" + Disclaimer
      && ParseTable(RenderCells(rows)) == Some(rows)
    ensures Headings(TableCells(branch, master)) == ChangedHeadings(master, Changed(branch, master)) + Removed(branch, master)
  {
    ListedNames(branch, master);
    CommentLayout(branch, master);
    TableReads(branch, master);
    TableHeadings(branch, master);
  }

  lemma CommentLayout(branch: Report, master: Report)
    requires |Removed(branch, master)| > 0 || |Changed(branch, master)| > 0
    ensures BuildCommentText(branch, master)
            == Marker + "\n" + RenderCells(HeaderCells + TableCells(branch, master)) + "\n\n" + Disclaimer
  {
    var changed, removed := Changed(branch, master), Removed(branch, master);
    RemovedInMaster(branch, master);
    var cc, rc := ChangedCells(master, changed), RemovedCells(master, removed);
    assert TableCells(branch, master) == cc + rc;
    ChangedTableCells(master, changed);
    RemovedTableCells(master, removed, ChangedTable(master, changed));
    RenderCellsAppend(cc, rc);
    HeaderText();
    RenderCellsAppend(HeaderCells, cc + rc);
    var table := RemovedTable(master, removed, ChangedTable(master, changed));
    assert BuildCommentText(branch, master) == Marker + "\n" + TableHeader + table + "\n\n" + Disclaimer;
    TableStep(Marker, Disclaimer, table, RenderCells(cc), RenderCells(rc), TableHeader, RenderCells(HeaderCells + (cc + rc)));
  }

  lemma HeaderText()
    ensures RenderCells(HeaderCells) == TableHeader
  {
    RenderCellsPair(HeaderCells[0], HeaderCells[1]);
    assert Line("Component", "Size") == "|Component|Size|\n";
    assert Line("--- ", "--- ") == "|--- |--- |\n";
  }

  lemma PlainHeader()
    ensures PlainCells(HeaderCells)
  {
  }

  /** String regrouping for the solver (a proof step with no meaning of its own). */
  lemma TableStep(marker: string, disclaimer: string, table: string, changedText: string, removedText: string,
                  header: string, all: string)
    requires table == changedText + removedText
    requires all == header + (changedText + removedText)
    ensures marker + "\n" + header + table + "\n\n" + disclaimer == marker + "\n" + all + "\n\n" + disclaimer
  {
  }

  lemma TableReads(branch: Report, master: Report)
    requires ComponentNames(branch) && ComponentNames(master)
    ensures ParseTable(RenderCells(HeaderCells + TableCells(branch, master))) == Some(HeaderCells + TableCells(branch, master))
  {
    var changed, removed := Changed(branch, master), Removed(branch, master);
    ListedNames(branch, master);
    var cc, rc := ChangedCells(master, changed), RemovedCells(master, removed);
    PlainChangedCells(master, changed);
    PlainRemovedCells(master, removed);
    PlainCellsAppend(cc, rc);
    PlainHeader();
    PlainCellsAppend(HeaderCells, cc + rc);
    ParseRenderCells(HeaderCells + (cc + rc));
  }

  lemma TableHeadings(branch: Report, master: Report)
    requires ComponentNames(branch) && ComponentNames(master)
    ensures Headings(TableCells(branch, master)) == ChangedHeadings(master, Changed(branch, master)) + Removed(branch, master)
  {
    var changed, removed := Changed(branch, master), Removed(branch, master);
    ListedNames(branch, master);
    var cc, rc := ChangedCells(master, changed), RemovedCells(master, removed);
    HeadingsChanged(master, changed);
    HeadingsRemoved(master, removed);
    HeadingsAppend(cc, rc);
  }

  // ===========================================================================
  // When the comment says there is no difference

  lemma Framed(body: string)
    ensures var t := Marker + "\n" + body + "\n\n" + Disclaimer;
      && |t| >= |Marker| + 3 + |Disclaimer|
      && t[..|Marker| + 1] == Marker + "\n"
      && t[|t| - |Disclaimer| - 2..] == "\n\n" + Disclaimer
  {
  }

  /** What stands between the marker line and the notice. */
  function CommentBody(branch: Report, master: Report): string {
    if |Removed(branch, master)| == 0 && |Changed(branch, master)| == 0 then NoDifferencesLine
    else
      RemovedInMaster(branch, master);
      TableHeader + RemovedTable(master, Removed(branch, master), ChangedTable(master, Changed(branch, master)))
  }

  lemma CommentShape(branch: Report, master: Report)
    ensures BuildCommentText(branch, master) == Marker + "\n" + CommentBody(branch, master) + "\n\n" + Disclaimer
  {
    if |Removed(branch, master)| == 0 && |Changed(branch, master)| == 0 {
      QuietCommentShape(branch, master);
    } else {
      TableCommentShape(branch, master);
    }
  }

  lemma QuietCommentShape(branch: Report, master: Report)
    requires |Removed(branch, master)| == 0 && |Changed(branch, master)| == 0
    ensures BuildCommentText(branch, master) == Marker + "\n" + CommentBody(branch, master) + "\n\n" + Disclaimer
  {
    QuietShape();
  }

  lemma TableCommentShape(branch: Report, master: Report)
    requires |Removed(branch, master)| > 0 || |Changed(branch, master)| > 0
    ensures BuildCommentText(branch, master) == Marker + "\n" + CommentBody(branch, master) + "\n\n" + Disclaimer
  {
    var removed, changed := Removed(branch, master), Changed(branch, master);
    RemovedInMaster(branch, master);
    var table := RemovedTable(master, removed, ChangedTable(master, changed));
    assert BuildCommentText(branch, master) == Marker + "\n" + TableHeader + table + "\n\n" + Disclaimer;
    assert CommentBody(branch, master) == TableHeader + table;
    Substitute(BuildCommentText(branch, master), Marker + "\n", TableHeader, table, CommentBody(branch, master), "\n\n", Disclaimer);
  }

  /** String regrouping for the solver (a proof step with no meaning of its own). */
  lemma Substitute(text: string, head: string, a: string, b: string, body: string, sep: string, tail: string)
    requires text == head + a + b + sep + tail
    requires body == a + b
    ensures text == head + body + sep + tail
  {
  }

  lemma QuietShape()
    ensures NoDifferences == Marker + "\n" + NoDifferencesLine + "\n\n" + Disclaimer
  {
  }

  /** Either way the comment opens with the marker line and closes with the
      notice not to reply. */
  lemma CommentFraming(branch: Report, master: Report)
    ensures var t := BuildCommentText(branch, master);
      && |t| >= |Marker| + 3 + |Disclaimer|
      && t[..|Marker| + 1] == Marker + "\n"
      && t[|t| - |Disclaimer| - 2..] == "\n\n" + Disclaimer
  {
    CommentShape(branch, master);
    Framed(CommentBody(branch, master));
  }

  lemma QuietBody(body: string)
    ensures Marker + "\n" + body + "\n\n" + Disclaimer == NoDifferences ==> body == NoDifferencesLine
  {
    var head, tail := Marker + "\n", "\n\n" + Disclaimer;
    var t := head + body + tail;
    if t == NoDifferences {
      assert NoDifferences == head + NoDifferencesLine + tail;
      assert t[|head|..|t| - |tail|] == body;
      assert NoDifferences[|head|..|t| - |tail|] == NoDifferencesLine;
    }
  }

  /** The comment is the no-difference message exactly when master has no
      component the branch lacks and every branch component has in master the
      same total, JS and CSS sizes. */
  lemma NoDifferencesIff(branch: Report, master: Report)
    ensures BuildCommentText(branch, master) == NoDifferences
            <==> && (forall n :: n in Names(master) ==> n in Names(branch))
                 && (forall i :: 0 <= i < |branch| ==> Lookup(master, branch[i].name) == Some(branch[i].size))
  {
    var removed, changed := Removed(branch, master), Changed(branch, master);
    RemovedEmptyIff(branch, master);
    ChangedEmptyIff(branch, master);
    CommentShape(branch, master);
    QuietBody(CommentBody(branch, master));
    if removed != [] || changed != [] {
      assert CommentBody(branch, master)[0] == '|';
      assert NoDifferencesLine[0] == 'N';
    }
  }

  lemma RemovedEmptyIff(branch: Report, master: Report)
    ensures Removed(branch, master) == [] <==> forall n :: n in Names(master) ==> n in Names(branch)
  {
    forall n | n in Names(master) && Removed(branch, master) == [] ensures n in Names(branch) {
      RemovedIff(branch, master, n);
    }
    if Removed(branch, master) != [] {
      RemovedIff(branch, master, Removed(branch, master)[0]);
    }
  }

  lemma ChangedEmptyIff(branch: Report, master: Report)
    ensures Changed(branch, master) == []
            <==> forall i :: 0 <= i < |branch| ==> Lookup(master, branch[i].name) == Some(branch[i].size)
  {
    forall i | 0 <= i < |branch| && Changed(branch, master) == []
      ensures Lookup(master, branch[i].name) == Some(branch[i].size)
    {
      ChangedIff(branch, master, branch[i]);
    }
    if Changed(branch, master) != [] {
      ChangedIff(branch, master, Changed(branch, master)[0]);
    }
  }

  /** A report compared with itself gives the no-difference message. */
  lemma SelfComparisonIsQuiet(r: Report)
    requires UniqueNames(r)
    ensures BuildCommentText(r, r) == NoDifferences
  {
    forall i | 0 <= i < |r| ensures Lookup(r, r[i].name) == Some(r[i].size) {
      LookupEntry(r, i);
    }
    NoDifferencesIff(r, r);
  }

  /** The artifact that carried a report, compared with the report itself,
      gives the no-difference message. */
  lemma ArtifactComparisonIsQuiet(r: Report)
    requires Encodable(r)
    ensures BuildCommentText(Artifact2Report(Report2Artifact(r)), r) == NoDifferences
  {
    RoundTrip(r);
    SelfComparisonIsQuiet(r);
  }

  /** Against an empty master every component is listed as added and none as
      removed; against an empty branch every master component is listed as
      removed and none as changed. */
  lemma {:induction false} EmptyMaster(branch: Report)
    ensures Changed(branch, []) == branch && Removed(branch, []) == []
  {
    if branch != [] {
      EmptyMaster(branch[1..]);
      assert branch == [branch[0]] + branch[1..];
    }
  }

  lemma {:induction false} EmptyBranch(master: Report)
    ensures Removed([], master) == Names(master) && Changed([], master) == []
  {
    if master != [] {
      EmptyBranch(master[1..]);
    }
  }

  /** Setting one component to a size master does not hold reports exactly
      that component, and nothing as removed. */
  lemma SingleUpdate(master: Report, name: string, size: ComponentSize)
    requires UniqueNames(master)
    requires Lookup(master, name) != Some(size)
    ensures forall e :: e in Changed(Put(master, name, size), master) <==> e == Entry(name, size)
    ensures Removed(Put(master, name, size), master) == []
  {
    var branch := Put(master, name, size);
    forall e ensures e in Changed(branch, master) <==> e == Entry(name, size) {
      SingleUpdateChanged(master, name, size, e);
    }
    if Removed(branch, master) != [] {
      var n := Removed(branch, master)[0];
      RemovedIff(branch, master, n);
      assert false;
    }
  }

  lemma SingleUpdateChanged(master: Report, name: string, size: ComponentSize, e: Entry)
    requires UniqueNames(master)
    requires Lookup(master, name) != Some(size)
    ensures e in Changed(Put(master, name, size), master) <==> e == Entry(name, size)
  {
    var branch := Put(master, name, size);
    ChangedIff(branch, master, e);
    if e in branch {
      var i :| 0 <= i < |branch| && branch[i] == e;
      LookupEntry(branch, i);
      if e.name != name {
        PutOther(master, name, size, e.name);
      }
    }
    if e == Entry(name, size) {
      assert Lookup(branch, name) == Some(size);
    }
  }

}
