/**
 * The documentation site's two macros: the global navigation tree rendered as
 * a nested Markdown list, and a vocabulary table rendered from a CSV file as a
 * Markdown table. Page titles, page paths and the parsed CSV rows are inputs;
 * a Python exception is an explicit outcome.
 */
module DocMacros {
  datatype Option<T> = None | Some(value: T)

  /** An entry of the site navigation. */
  datatype NavItem =
    | Section(title: string, children: seq<NavItem>)
    | Page(title: string, srcUri: string, isHomepage: bool)
    | Link(title: string)  // any item that is neither a section nor a page

  /** The exceptions these macros can raise. */
  datatype PyError =
    | UnexpectedItemType
    | NoneInJoin(index: nat)  // `str.join` met `None` at this position

  /** A Python computation: it returns a value or raises. */
  datatype Py<T> = Returns(value: T) | Raises(error: PyError)

  // Strings

  predicate NoNewline(s: string)
  {
    '\n' !in s
  }

  /** `sep.join(parts)`. */
  function Join(sep: string, parts: seq<string>): string
    decreases |parts|
  {
    if |parts| == 0 then ""
    else if |parts| == 1 then parts[0]
    else parts[0] + sep + Join(sep, parts[1..])
  }

  /** The position of the first newline in s, or |s| when there is none. */
  function NewlineIndex(s: string): (i: nat)
    ensures i <= |s| && (i < |s| ==> s[i] == '\n')
    ensures forall j :: 0 <= j < i ==> s[j] != '\n'
  {
    if |s| == 0 || s[0] == '\n' then 0 else 1 + NewlineIndex(s[1..])
  }

  /** The pieces of s between newlines, as `s.split("\n")` gives them. */
  function Lines(s: string): (parts: seq<string>)
    ensures |parts| >= 1
    decreases |s|
  {
    var i := NewlineIndex(s);
    if i == |s| then [s] else [s[..i]] + Lines(s[i + 1..])
  }

  /** Joining lines that hold no newline with "\n" and splitting again gives the lines back. */
  lemma {:induction false} LinesOfJoin(parts: seq<string>)
    requires |parts| >= 1 && forall k :: 0 <= k < |parts| ==> NoNewline(parts[k])
    ensures Lines(Join("\n", parts)) == parts
    decreases |parts|
  {
    if |parts| == 1 {
      NoNewlineIndex(parts[0]);
    } else {
      LinesOfJoin(parts[1..]);
      LinesCons(parts[0], Join("\n", parts[1..]));
      assert parts == [parts[0]] + parts[1..];
    }
  }

  /** Splitting a newline-free line, a newline and a rest gives the line, then the rest's pieces. */
  lemma LinesCons(p: string, rest: string)
    requires NoNewline(p)
    ensures Lines(p + "\n" + rest) == [p] + Lines(rest)
  {
    var s := p + "\n" + rest;
    assert s[|p|] == '\n';
    assert forall j :: 0 <= j < |p| ==> s[j] == p[j];
    assert NewlineIndex(s) == |p|;
    assert s[..|p|] == p;
    assert s[|p| + 1..] == rest;
  }

  lemma NoNewlineIndex(s: string)
    requires NoNewline(s)
    ensures NewlineIndex(s) == |s|
  {
  }

  /** Joining newline-free parts with a newline-free separator gives a newline-free string. */
  lemma {:induction false} JoinNoNewline(sep: string, parts: seq<string>)
    requires NoNewline(sep) && forall k :: 0 <= k < |parts| ==> NoNewline(parts[k])
    ensures NoNewline(Join(sep, parts))
    decreases |parts|
  {
    if |parts| > 1 {
      JoinNoNewline(sep, parts[1..]);
      ConcatNoNewline(parts[0], sep);
      ConcatNoNewline(parts[0] + sep, Join(sep, parts[1..]));
    }
  }

  lemma ConcatNoNewline(a: string, b: string)
    requires NoNewline(a) && NoNewline(b)
    ensures NoNewline(a + b)
  {
    assert forall i :: 0 <= i < |a + b| ==> (a + b)[i] == if i < |a| then a[i] else b[i - |a|];
  }

  /** `str(n)` for a natural number. */
  function Decimal(n: nat): (s: string)
    ensures |s| >= 1
  {
    if n < 10 then ["0123456789"[n]] else Decimal(n / 10) + ["0123456789"[n % 10]]
  }

  // The navigation tree

  /** `"    " * depth`. */
  function Indent(depth: nat): (s: string)
    ensures |s| == 4 * depth && forall i :: 0 <= i < |s| ==> s[i] == ' '
  {
    if depth == 0 then "" else "    " + Indent(depth - 1)
  }

  function SectionLine(depth: nat, title: string): string
  {
    Indent(depth) + "- " + title
  }

  function PageLine(depth: nat, title: string, srcUri: string): string
  {
    Indent(depth) + "- [" + title + "](" + srcUri + ")"
  }

  /** A tree every item of which, at any depth, is a section or a page. */
  predicate WellTyped(items: seq<NavItem>)
    decreases items
  {
    forall i :: 0 <= i < |items| ==>
      match items[i]
      case Section(_, children) => WellTyped(children)
      case Page(_, _, _) => true
      case Link(_) => false
  }

  /**
   * The lines of a tree in depth-first pre-order: a section's line, then its
   * children one level deeper, then the items after it; a page that is not
   * the home page gives one line, the home page none.
   */
  function Outline(items: seq<NavItem>, depth: nat): seq<string>
    decreases items
  {
    if |items| == 0 then []
    else
      var rest := Outline(items[1..], depth);
      match items[0]
      case Section(title, children) => [SectionLine(depth, title)] + Outline(children, depth + 1) + rest
      case Page(title, srcUri, isHomepage) => (if isHomepage then [] else [PageLine(depth, title, srcUri)]) + rest
      case Link(_) => rest
  }

  /** The number of items that give a line: every section and every page but the home page. */
  function Entries(items: seq<NavItem>): nat
    decreases items
  {
    if |items| == 0 then 0
    else
      var rest := Entries(items[1..]);
      match items[0]
      case Section(_, children) => 1 + Entries(children) + rest
      case Page(_, _, isHomepage) => (if isHomepage then 0 else 1) + rest
      case Link(_) => rest
  }

  lemma {:induction false} OutlineAppend(a: seq<NavItem>, b: seq<NavItem>, depth: nat)
    ensures Outline(a + b, depth) == Outline(a, depth) + Outline(b, depth)
    decreases |a|
  {
    if |a| > 0 {
      assert (a + b)[1..] == a[1..] + b;
      assert (a + b)[0] == a[0];
      OutlineAppend(a[1..], b, depth);
    } else {
      assert a + b == b;
    }
  }

  /** One line per section and per page other than the home page. */
  lemma {:induction false} OutlineLength(items: seq<NavItem>, depth: nat)
    ensures |Outline(items, depth)| == Entries(items)
    decreases items
  {
    if |items| > 0 {
      OutlineLength(items[1..], depth);
      match items[0]
      case Section(_, children) => OutlineLength(children, depth + 1);
      case Page(_, _, _) =>
      case Link(_) =>
    }
  }

  /**
   * A line of a tree rendered at depth d starts with at least 4·d spaces: its
   * own indentation, of 4 spaces per level below the top.
   */
  lemma {:induction false} OutlineIndented(items: seq<NavItem>, depth: nat)
    ensures forall k :: 0 <= k < |Outline(items, depth)| ==>
      |Outline(items, depth)[k]| >= 4 * depth + 2 && Outline(items, depth)[k][..4 * depth] == Indent(depth)
    decreases items
  {
    if |items| > 0 {
      OutlineIndented(items[1..], depth);
      match items[0]
      case Section(title, children) =>
        OutlineIndented(children, depth + 1);
        DeeperIndent(Outline(children, depth + 1), depth);
      case Page(_, _, _) =>
      case Link(_) =>
    }
  }

  /** Lines indented one level deeper are still indented at the outer level. */
  lemma DeeperIndent(lines: seq<string>, depth: nat)
    requires forall k :: 0 <= k < |lines| ==>
      |lines[k]| >= 4 * (depth + 1) + 2 && lines[k][..4 * (depth + 1)] == Indent(depth + 1)
    ensures forall k :: 0 <= k < |lines| ==> |lines[k]| >= 4 * depth + 2 && lines[k][..4 * depth] == Indent(depth)
  {
    forall k | 0 <= k < |lines|
      ensures lines[k][..4 * depth] == Indent(depth)
    {
      assert lines[k][..4 * depth] == Indent(depth + 1)[..4 * depth];
    }
  }

  /** A tree whose titles and paths hold no newline renders to lines that hold none. */
  predicate PlainTitles(items: seq<NavItem>)
    decreases items
  {
    forall i :: 0 <= i < |items| ==>
      match items[i]
      case Section(title, children) => NoNewline(title) && PlainTitles(children)
      case Page(title, srcUri, _) => NoNewline(title) && NoNewline(srcUri)
      case Link(_) => true
  }

  lemma {:induction false} OutlineNoNewline(items: seq<NavItem>, depth: nat)
    requires PlainTitles(items)
    ensures forall k :: 0 <= k < |Outline(items, depth)| ==> NoNewline(Outline(items, depth)[k])
    decreases items
  {
    if |items| > 0 {
      assert PlainTitles(items[1..]) by {
        assert forall i :: 0 <= i < |items[1..]| ==> items[1..][i] == items[i + 1];
      }
      OutlineNoNewline(items[1..], depth);
      match items[0]
      case Section(title, children) =>
        OutlineNoNewline(children, depth + 1);
        ConcatNoNewline(Indent(depth), "- ");
        ConcatNoNewline(Indent(depth) + "- ", title);
      case Page(title, srcUri, _) =>
        ConcatNoNewline(Indent(depth), "- [");
        ConcatNoNewline(Indent(depth) + "- [", title);
        ConcatNoNewline(Indent(depth) + "- [" + title, "](");
        ConcatNoNewline(Indent(depth) + "- [" + title + "](", srcUri);
        ConcatNoNewline(Indent(depth) + "- [" + title + "](" + srcUri, ")");
      case Link(_) =>
    }
  }

  lemma WellTypedAppend(a: seq<NavItem>, b: seq<NavItem>)
    ensures WellTyped(a + b) <==> WellTyped(a) && WellTyped(b)
  {
    assert forall i :: 0 <= i < |a| ==> (a + b)[i] == a[i];
    assert forall i :: 0 <= i < |b| ==> (a + b)[|a| + i] == b[i];
  }

  /** The lines and the well-typedness of a prefix one item longer. */
  lemma RenderStep(items: seq<NavItem>, i: nat, depth: nat)
    requires i < |items|
    ensures Outline(items[..i + 1], depth) == Outline(items[..i], depth) + Outline([items[i]], depth)
    ensures WellTyped(items[..i + 1]) <==> WellTyped(items[..i]) && WellTyped([items[i]])
    ensures !WellTyped([items[i]]) ==> !WellTyped(items)
  {
    assert items[..i + 1] == items[..i] + [items[i]];
    OutlineAppend(items[..i], [items[i]], depth);
    WellTypedAppend(items[..i], [items[i]]);
    assert items == items[..i + 1] + items[i + 1..];
    WellTypedAppend(items[..i + 1], items[i + 1..]);
  }

  /** The lines of a single item. */
  lemma OutlineOne(item: NavItem, depth: nat)
    ensures item.Section? ==> (Outline([item], depth) == [SectionLine(depth, item.title)] + Outline(item.children, depth + 1)
      && (WellTyped([item]) <==> WellTyped(item.children)))
    ensures item.Page? ==> (Outline([item], depth) == (if item.isHomepage then [] else [PageLine(depth, item.title, item.srcUri)])
      && WellTyped([item]))
    ensures item.Link? ==> !WellTyped([item])
  {
    assert [item][0] == item;
    assert [item][1..] == [];
  }

  /**
   * `render(conf, items, indent)`: the lines of a well-typed tree; an item of
   * any other kind, at any depth, raises.
   */
  method Render(items: seq<NavItem>, indent: nat) returns (r: Py<seq<string>>)
    ensures r == if WellTyped(items) then Returns(Outline(items, indent)) else Raises(UnexpectedItemType)
    decreases items
  {
    var lines: seq<string> := [];
    for i := 0 to |items|
      invariant WellTyped(items[..i]) && lines == Outline(items[..i], indent)
    {
      RenderStep(items, i, indent);
      var step := RenderItem(items[i], indent);
      if step.Raises? {
        return step;
      }
      lines := lines + step.value;
    }
    assert items[..|items|] == items;
    return Returns(lines);
  }

  /**
   * One iteration of the loop in `render`: a section's line followed by its
   * children one level deeper, a page's line unless it is the home page, or the
   * error for an item of any other kind.
   */
  method RenderItem(item: NavItem, indent: nat) returns (r: Py<seq<string>>)
    ensures r == if WellTyped([item]) then Returns(Outline([item], indent)) else Raises(UnexpectedItemType)
    decreases item
  {
    OutlineOne(item, indent);
    match item {
      case Section(title, children) =>
        if |children| == 0 {
          assert Outline(children, indent + 1) == [] && WellTyped(children);
          assert [SectionLine(indent, title)] + Outline(children, indent + 1) == [SectionLine(indent, title)];
          return Returns([SectionLine(indent, title)]);
        }
        var sub := Render(children, indent + 1);
        if sub.Raises? {
          return sub;
        }
        return Returns([SectionLine(indent, title)] + sub.value);
      case Page(title, srcUri, isHomepage) =>
        if isHomepage {
          return Returns([]);
        }
        return Returns([PageLine(indent, title, srcUri)]);
      case Link(_) =>
        return Raises(UnexpectedItemType);
    }
  }

  const Unavailable: string := "Unable to render navigation tree."

  /**
   * `global_nav()`: the stored tree's lines joined with newlines, or a fixed
   * message when no tree is stored or it is empty.
   */
  method GlobalNav(tree: Option<seq<NavItem>>) returns (r: Py<string>)
    ensures (tree.None? || tree.value == []) ==> r == Returns(Unavailable)
    ensures tree.Some? && tree.value != [] && !WellTyped(tree.value) ==> r == Raises(UnexpectedItemType)
    ensures tree.Some? && tree.value != [] && WellTyped(tree.value) ==> r == Returns(Join("\n", Outline(tree.value, 0)))
  {
    if tree.None? || tree.value == [] {
      return Returns(Unavailable);
    }
    var lines := Render(tree.value, 0);
    if lines.Raises? {
      return Raises(lines.error);
    }
    return Returns(Join("\n", lines.value));
  }

  /** The rendered navigation splits back into one line per entry when no title holds a newline. */
  lemma NavigationLines(items: seq<NavItem>)
    requires WellTyped(items) && PlainTitles(items) && Entries(items) > 0
    ensures Lines(Join("\n", Outline(items, 0))) == Outline(items, 0)
    ensures |Lines(Join("\n", Outline(items, 0)))| == Entries(items)
  {
    OutlineLength(items, 0);
    OutlineNoNewline(items, 0);
    LinesOfJoin(Outline(items, 0));
  }

  // The vocabulary table

  /** A field of a parsed CSV record: a string, or `None` for a field a short record lacks. */
  datatype Cell = Text(text: string) | NoneValue

  /** A parsed CSV file: the header's field names and the records in file order. */
  datatype CsvFile = CsvFile(fieldnames: seq<string>, rows: seq<map<string, Cell>>)

  /** `row.get(key, "")`. */
  function Get(row: map<string, Cell>, key: string): Cell
  {
    if key in row then row[key] else Text("")
  }

  /** `"| " + " | ".join(parts) + " |"`. */
  function MarkdownRow(parts: seq<string>): string
  {
    "| " + Join(" | ", parts) + " |"
  }

  function Repeat(s: string, n: nat): (r: seq<string>)
    ensures |r| == n && forall k :: 0 <= k < n ==> r[k] == s
  {
    if n == 0 then [] else Repeat(s, n - 1) + [s]
  }

  /** The cells of a record, in header order. */
  function Cells(headers: seq<string>, row: map<string, Cell>): (cells: seq<Cell>)
    ensures |cells| == |headers| && forall j :: 0 <= j < |headers| ==> cells[j] == Get(row, headers[j])
  {
    if |headers| == 0 then [] else Cells(headers[..|headers| - 1], row) + [Get(row, headers[|headers| - 1])]
  }

  /** The position of the first `None` among the cells, or their number when there is none. */
  function FirstNone(cells: seq<Cell>): (i: nat)
    ensures i <= |cells| && (i < |cells| ==> cells[i] == NoneValue)
    ensures forall j :: 0 <= j < i ==> cells[j].Text?
  {
    if |cells| == 0 || cells[0] == NoneValue then 0 else 1 + FirstNone(cells[1..])
  }

  function Texts(cells: seq<Cell>): (texts: seq<string>)
    requires forall j :: 0 <= j < |cells| ==> cells[j].Text?
    ensures |texts| == |cells| && forall j :: 0 <= j < |cells| ==> texts[j] == cells[j].text
  {
    if |cells| == 0 then [] else [cells[0].text] + Texts(cells[1..])
  }

  /** A record's Markdown row; `str.join` raises at the first `None` cell. */
  function RowLine(headers: seq<string>, row: map<string, Cell>): Py<string>
  {
    var cells := Cells(headers, row);
    var i := FirstNone(cells);
    if i < |cells| then Raises(NoneInJoin(i)) else Returns(MarkdownRow(Texts(cells)))
  }

  /** The records' rows in file order, or the error of the first record that raises. */
  function RowLines(headers: seq<string>, rows: seq<map<string, Cell>>): Py<seq<string>>
    decreases |rows|
  {
    if |rows| == 0 then Returns([])
    else
      var init := RowLines(headers, rows[..|rows| - 1]);
      var last := RowLine(headers, rows[|rows| - 1]);
      if init.Raises? then init else if last.Raises? then Raises(last.error) else Returns(init.value + [last.value])
  }

  /** The row loop of `vocabulary_table`. */
  method TableRows(headers: seq<string>, rows: seq<map<string, Cell>>) returns (r: Py<seq<string>>)
    ensures r == RowLines(headers, rows)
  {
    var lines: seq<string> := [];
    for i := 0 to |rows|
      invariant RowLines(headers, rows[..i]) == Returns(lines)
    {
      assert rows[..i + 1][..i] == rows[..i];
      var line := RowLine(headers, rows[i]);
      if line.Raises? {
        RaisesLater(headers, rows, i + 1);
        return Raises(line.error);
      }
      lines := lines + [line.value];
    }
    assert rows[..|rows|] == rows;
    return Returns(lines);
  }

  /** Once a prefix of the records raises, every longer prefix raises the same error. */
  lemma {:induction false} RaisesLater(headers: seq<string>, rows: seq<map<string, Cell>>, i: nat)
    requires i <= |rows| && RowLines(headers, rows[..i]).Raises?
    ensures RowLines(headers, rows) == RowLines(headers, rows[..i])
    decreases |rows| - i
  {
    if i == |rows| {
      assert rows[..i] == rows;
    } else {
      assert rows[..i + 1][..i] == rows[..i];
      RaisesLater(headers, rows, i + 1);
    }
  }

  /** With no `None` cell, there is one row per record, holding its fields in header order, "" for a missing one. */
  lemma {:induction false} RowLinesOfTexts(headers: seq<string>, rows: seq<map<string, Cell>>)
    requires forall k, h :: 0 <= k < |rows| && h in rows[k] ==> rows[k][h].Text?
    ensures RowLines(headers, rows).Returns?
    ensures |RowLines(headers, rows).value| == |rows|
    ensures forall k :: 0 <= k < |rows| ==>
      RowLines(headers, rows).value[k] == MarkdownRow(seq(|headers|, j requires 0 <= j < |headers| => Field(rows[k], headers[j])))
    decreases |rows|
  {
    if |rows| > 0 {
      var init := rows[..|rows| - 1];
      RowLinesOfTexts(headers, init);
      RowLineOfTexts(headers, rows[|rows| - 1]);
    }
  }

  /** A field of a record whose fields are all strings, "" when it is missing. */
  function Field(row: map<string, Cell>, key: string): string
  {
    if key in row && row[key].Text? then row[key].text else ""
  }

  lemma RowLineOfTexts(headers: seq<string>, row: map<string, Cell>)
    requires forall h :: h in row ==> row[h].Text?
    ensures RowLine(headers, row) == Returns(MarkdownRow(seq(|headers|, j requires 0 <= j < |headers| => Field(row, headers[j]))))
  {
    var cells := Cells(headers, row);
    assert FirstNone(cells) == |cells|;
    assert Texts(cells) == seq(|headers|, j requires 0 <= j < |headers| => Field(row, headers[j]));
  }

  const NoWords: string := "_No words available._"

  function NotFound(category: string): string
  {
    "**Error: Vocabulary file '" + category + ".csv' not found.**"
  }

  function RenderError(e: PyError): string
  {
    match e
    case NoneInJoin(i) => "**Error rendering vocabulary table: sequence item " + Decimal(i) + ": expected str instance, NoneType found**"
    case UnexpectedItemType => "**Error rendering vocabulary table**"
  }

  function Header(fieldnames: seq<string>): seq<string>
  {
    [MarkdownRow(fieldnames), MarkdownRow(Repeat("---", |fieldnames|))]
  }

  /**
   * What `vocabulary_table(category)` returns for the parsed file, or for a
   * missing one. Where no record raises, it is the intended table.
   */
  function Table(category: string, file: Option<CsvFile>): (r: string)
    ensures file.None? ==> r == NotFound(category)
    ensures file.Some? && file.value.rows == [] ==> r == NoWords
    ensures file.Some? && file.value.rows != [] && RowLines(file.value.fieldnames, file.value.rows).Raises? ==>
      r == RenderError(RowLines(file.value.fieldnames, file.value.rows).error)
    ensures file.Some? && RowLines(file.value.fieldnames, file.value.rows).Returns? ==> r == IntendedTable(category, file)
  {
    if file.None? then NotFound(category)
    else if file.value.rows == [] then NoWords
    else
      var body := RowLines(file.value.fieldnames, file.value.rows);
      if body.Raises? then RenderError(body.error)
      else
        RowLinesReturns(file.value.fieldnames, file.value.rows);
        Join("\n", Header(file.value.fieldnames) + body.value)
  }

  /** `vocabulary_table(category)` over the parsed file, or none when it does not exist. */
  method VocabularyTable(category: string, file: Option<CsvFile>) returns (r: string)
    ensures r == Table(category, file)
    ensures file.None? ==> r == NotFound(category)
    ensures file.Some? && file.value.rows == [] ==> r == NoWords
  {
    if file.None? {
      return NotFound(category);
    }
    var rows := file.value.rows;
    if rows == [] {
      return NoWords;
    }
    var headers := file.value.fieldnames;
    var body := TableRows(headers, rows);
    if body.Raises? {
      return RenderError(body.error);
    }
    return Join("\n", Header(headers) + body.value);
  }

  /**
   * A file whose records all have every field, and whose names and fields hold
   * no newline, gives a header row, a separator with one "---" per field name,
   * and one row per record in file order with its fields in header order.
   */
  lemma TableShape(category: string, file: CsvFile)
    requires file.rows != []
    requires forall k, h :: 0 <= k < |file.rows| && h in file.rows[k] ==> file.rows[k][h].Text?
    requires forall k :: 0 <= k < |file.fieldnames| ==> NoNewline(file.fieldnames[k])
    requires forall k, h :: 0 <= k < |file.rows| && h in file.rows[k] ==> NoNewline(file.rows[k][h].text)
    ensures var lines := Lines(Table(category, Some(file)));
      var headers := file.fieldnames;
      |lines| == |file.rows| + 2
      && lines[0] == MarkdownRow(headers)
      && lines[1] == MarkdownRow(Repeat("---", |headers|))
      && forall k :: 0 <= k < |file.rows| ==>
        lines[k + 2] == MarkdownRow(seq(|headers|, j requires 0 <= j < |headers| => Field(file.rows[k], headers[j])))
  {
    var headers := file.fieldnames;
    RowLinesOfTexts(headers, file.rows);
    var body := RowLines(headers, file.rows).value;
    forall k | 0 <= k < |body|
      ensures NoNewline(body[k])
    {
      FieldsNoNewline(headers, file.rows[k]);
    }
    TableLines(headers, body);
  }

  /** The header, separator and rows joined with newlines split back into them. */
  lemma TableLines(headers: seq<string>, body: seq<string>)
    requires forall k :: 0 <= k < |headers| ==> NoNewline(headers[k])
    requires forall k :: 0 <= k < |body| ==> NoNewline(body[k])
    ensures Lines(Join("\n", Header(headers) + body)) == Header(headers) + body
  {
    RowNoNewline(headers);
    RowNoNewline(Repeat("---", |headers|));
    var all := Header(headers) + body;
    assert all[2..] == body;
    PlainAfterTwo(all, body);
    LinesOfJoin(all);
  }

  lemma PlainAfterTwo(all: seq<string>, body: seq<string>)
    requires |all| == |body| + 2 && all[2..] == body && NoNewline(all[0]) && NoNewline(all[1])
    requires forall k :: 0 <= k < |body| ==> NoNewline(body[k])
    ensures forall k :: 0 <= k < |all| ==> NoNewline(all[k])
  {
    forall k | 0 <= k < |all|
      ensures NoNewline(all[k])
    {
      if k >= 2 {
        assert all[k] == body[k - 2];
      }
    }
  }



  /** A record's row, its fields in header order, holds no newline when its fields and the names hold none. */
  lemma FieldsNoNewline(headers: seq<string>, row: map<string, Cell>)
    requires forall h :: h in row && row[h].Text? ==> NoNewline(row[h].text)
    ensures NoNewline(MarkdownRow(seq(|headers|, j requires 0 <= j < |headers| => Field(row, headers[j]))))
  {
    var fields := seq(|headers|, j requires 0 <= j < |headers| => Field(row, headers[j]));
    assert forall j :: 0 <= j < |fields| ==> NoNewline(fields[j]);
    RowNoNewline(fields);
  }

  lemma RowNoNewline(parts: seq<string>)
    requires forall k :: 0 <= k < |parts| ==> NoNewline(parts[k])
    ensures NoNewline(MarkdownRow(parts))
  {
    JoinNoNewline(" | ", parts);
    ConcatNoNewline("| ", Join(" | ", parts));
    ConcatNoNewline("| " + Join(" | ", parts), " |");
  }

  /**
   * `csv.DictReader` fills the fields a short record lacks with `None`, so
   * `row.get(h, "")` yields `None` there and `str.join` raises: a record with
   * a missing field turns the whole table into an error message.
   */
  lemma ShortRecordFails()
    ensures Table("words", Some(CsvFile(["word", "meaning"], [map["word" := Text("bit"), "meaning" := NoneValue]])))
      == RenderError(NoneInJoin(1))
  {
    var headers := ["word", "meaning"];
    var row := map["word" := Text("bit"), "meaning" := NoneValue];
    var cells := Cells(headers, row);
    assert cells == [Text("bit"), NoneValue] by {
      assert Get(row, "word") == Text("bit");
      assert Get(row, "meaning") == NoneValue;
    }
    assert FirstNone(cells) == 1 by {
      assert cells[1..] == [NoneValue];
    }
    assert RowLines(headers, [row]) == Raises(NoneInJoin(1)) by {
      assert [row][..0] == [];
    }
  }

  /** The records' rows with every missing field rendered as "". */
  function FieldRows(headers: seq<string>, rows: seq<map<string, Cell>>): (body: seq<string>)
    ensures |body| == |rows|
    ensures forall k :: 0 <= k < |rows| ==>
      body[k] == MarkdownRow(seq(|headers|, j requires 0 <= j < |headers| => Field(rows[k], headers[j])))
  {
    seq(|rows|, k requires 0 <= k < |rows| =>
      MarkdownRow(seq(|headers|, j requires 0 <= j < |headers| => Field(rows[k], headers[j]))))
  }

  /** A record's row that does not raise is its fields in header order. */
  lemma RowLineReturns(headers: seq<string>, row: map<string, Cell>)
    requires RowLine(headers, row).Returns?
    ensures RowLine(headers, row).value == MarkdownRow(seq(|headers|, j requires 0 <= j < |headers| => Field(row, headers[j])))
  {
    var cells := Cells(headers, row);
    assert FirstNone(cells) == |cells|;
    assert Texts(cells) == seq(|headers|, j requires 0 <= j < |headers| => Field(row, headers[j]));
  }

  /** When no record raises, the row loop gives the intended rows. */
  lemma {:induction false} RowLinesReturns(headers: seq<string>, rows: seq<map<string, Cell>>)
    requires RowLines(headers, rows).Returns?
    ensures RowLines(headers, rows).value == FieldRows(headers, rows)
    decreases |rows|
  {
    if |rows| > 0 {
      var init := rows[..|rows| - 1];
      RowLinesReturns(headers, init);
      RowLineReturns(headers, rows[|rows| - 1]);
      var body := RowLines(headers, rows).value;
      var intended := FieldRows(headers, rows);
      assert |body| == |intended|;
      forall k | 0 <= k < |rows|
        ensures body[k] == intended[k]
      {
        if k < |rows| - 1 {
          assert body[k] == FieldRows(headers, init)[k];
          assert init[k] == rows[k];
        }
      }
    }
  }

  /** The table with every missing field rendered as "". */
  function IntendedTable(category: string, file: Option<CsvFile>): (r: string)
    ensures file.None? ==> r == NotFound(category)
    ensures file.Some? && file.value.rows == [] ==> r == NoWords
    ensures file.Some? && file.value.rows != [] ==>
      r == Join("\n", Header(file.value.fieldnames) + FieldRows(file.value.fieldnames, file.value.rows))
  {
    if file.None? then NotFound(category)
    else if file.value.rows == [] then NoWords
    else Join("\n", Header(file.value.fieldnames) + FieldRows(file.value.fieldnames, file.value.rows))
  }

  /**
   * Whatever fields the records lack, the intended table is a header row, a
   * separator and one row per record, every row with one cell per field name.
   */
  lemma IntendedTableShape(category: string, file: CsvFile)
    requires file.rows != []
    requires forall k :: 0 <= k < |file.fieldnames| ==> NoNewline(file.fieldnames[k])
    requires forall k, h :: 0 <= k < |file.rows| && h in file.rows[k] && file.rows[k][h].Text? ==> NoNewline(file.rows[k][h].text)
    ensures var lines := Lines(IntendedTable(category, Some(file)));
      var headers := file.fieldnames;
      |lines| == |file.rows| + 2
      && lines[0] == MarkdownRow(headers)
      && lines[1] == MarkdownRow(Repeat("---", |headers|))
      && forall k :: 0 <= k < |file.rows| ==>
        lines[k + 2] == MarkdownRow(seq(|headers|, j requires 0 <= j < |headers| => Field(file.rows[k], headers[j])))
  {
    var headers := file.fieldnames;
    var body := FieldRows(headers, file.rows);
    forall k | 0 <= k < |body|
      ensures NoNewline(body[k])
    {
      FieldsNoNewline(headers, file.rows[k]);
    }
    TableLines(headers, body);
  }
}
