/** `src/calcite/audit-css-vars.js`: a Markdown table with one row per
    component, listing the `--calcite-` custom properties its stylesheet uses
    and those documented with `* @prop` in its comments. */
module AuditCssVars {
  import opened Text
  import opened Components
  import opened Utils
  import StringOrder

  /** What every custom property the audit looks for starts with. */
  const Prefix: string := "--calcite-"

  /** The lookbehind `(?<=\* \@prop )` of the documented properties. */
  const DocTag: string := "* @prop "

  /** The characters `[^\]\)\}\;\:\,\s]` excludes: they end a property name. */
  predicate IsStop(c: char) {
    c == ']' || c == ')' || c == '}' || c == ';' || c == ':' || c == ',' || IsJsSpace(c)
  }

  /** The end of the longest run of non-stop characters from `j`. */
  function TokenEnd(s: string, j: nat): (e: nat)
    requires j <= |s|
    ensures j <= e <= |s|
    ensures forall k :: j <= k < e ==> !IsStop(s[k])
    ensures e < |s| ==> IsStop(s[e])
    decreases |s| - j
  {
    if j == |s| || IsStop(s[j]) then j else TokenEnd(s, j + 1)
  }

  /** A name the pattern can match: the prefix, then no stop character. */
  predicate IsPropertyName(t: string) {
    StartsWith(t, Prefix) && forall k :: |Prefix| <= k < |t| ==> !IsStop(t[k])
  }

  /** The pattern matches at `i`: the prefix starts there and `behind` ends there. */
  predicate MatchesAt(s: string, i: nat, behind: string) {
    OccursAt(s, Prefix, i) && EndsAt(s, behind, i)
  }

  /** `s.match(re)` for a global pattern: from `i` on, each match is taken
      whole and the search resumes after it. `behind` is the lookbehind ("" for
      none). No match gives no names, as `new Set(null)` is empty. */
  function Scan(s: string, i: nat, behind: string): (r: seq<string>)
    requires i <= |s|
    ensures forall k :: 0 <= k < |r| ==> IsPropertyName(r[k])
    decreases |s| - i
  {
    if i == |s| then []
    else if MatchesAt(s, i, behind) then
      var e := TokenEnd(s, i + |Prefix|);
      assert s[i..e][..|Prefix|] == Prefix;
      [s[i..e]] + Scan(s, e, behind)
    else Scan(s, i + 1, behind)
  }

  /** `cssVars` */
  function Vars(stylesheet: string): seq<string> {
    StringOrder.SortedUnique(Scan(stylesheet, 0, ""))
  }

  /** `cssVarsDocd` */
  function DocumentedVars(stylesheet: string): seq<string> {
    StringOrder.SortedUnique(Scan(stylesheet, 0, DocTag))
  }

  /** Both lists are strictly increasing, so free of duplicates, hold
      property names only, and are the one sorted listing of what the scan
      found. */
  lemma ListsSortedAndUnique(stylesheet: string, names: seq<string>, behind: string)
    requires StringOrder.StrictlySorted(names)
    requires StringOrder.Elems(names) == StringOrder.Elems(Scan(stylesheet, 0, behind))
    ensures behind == "" ==> names == Vars(stylesheet)
    ensures behind == DocTag ==> names == DocumentedVars(stylesheet)
    ensures forall k :: 0 <= k < |names| ==> IsPropertyName(names[k])
  {
    var found := Scan(stylesheet, 0, behind);
    StringOrder.SortedListingUnique(names, StringOrder.SortedUnique(found));
    forall k | 0 <= k < |names|
      ensures IsPropertyName(names[k])
    {
      assert names[k] in StringOrder.Elems(found);
    }
  }

  /** Every match of the lookbehind scan is a prefix occurrence preceded by
      the tag. */
  lemma {:induction false} DocumentedMatch(s: string, p: nat, t: string)
    requires p <= |s| && t in Scan(s, p, DocTag)
    ensures exists i :: p <= i <= |s| && MatchesAt(s, i, DocTag) && t == s[i..TokenEnd(s, i + |Prefix|)]
    decreases |s| - p
  {
    if p < |s| {
      if MatchesAt(s, p, DocTag) {
        var e := TokenEnd(s, p + |Prefix|);
        if t != s[p..e] {
          DocumentedMatch(s, e, t);
        }
      } else {
        DocumentedMatch(s, p + 1, t);
      }
    }
  }

  /** A prefix occurrence at the start of the text or right after a stop
      character is reached by the plain scan from any earlier position: no
      earlier match runs across the stop. */
  lemma {:induction false} ScanReaches(s: string, p: nat, i: nat)
    requires p <= i < |s| && OccursAt(s, Prefix, i) && (i == 0 || IsStop(s[i - 1]))
    ensures s[i..TokenEnd(s, i + |Prefix|)] in Scan(s, p, "")
    decreases i - p
  {
    assert EndsAt(s, "", p);
    if p < i {
      if MatchesAt(s, p, "") {
        var e := TokenEnd(s, p + |Prefix|);
        forall k | p <= k < p + |Prefix|
          ensures !IsStop(s[k])
        {
          assert s[k] == Prefix[k - p];
        }
        ScanReaches(s, e, i);
      } else {
        ScanReaches(s, p + 1, i);
      }
    } else {
      assert MatchesAt(s, i, "");
    }
  }

  /** Every documented property is also among the properties used. */
  lemma DocumentedAreUsed(stylesheet: string)
    ensures forall t :: t in DocumentedVars(stylesheet) ==> t in Vars(stylesheet)
  {
    forall t | t in DocumentedVars(stylesheet)
      ensures t in Vars(stylesheet)
    {
      assert t in StringOrder.Elems(DocumentedVars(stylesheet));
      DocumentedMatch(stylesheet, 0, t);
      var i :| 0 <= i <= |stylesheet| && MatchesAt(stylesheet, i, DocTag)
               && t == stylesheet[i..TokenEnd(stylesheet, i + |Prefix|)];
      assert stylesheet[i - 1] == DocTag[|DocTag| - 1];
      ScanReaches(stylesheet, 0, i);
      assert t in StringOrder.Elems(Scan(stylesheet, 0, ""));
    }
  }

  /** A stylesheet that never mentions the prefix has no properties. */
  lemma {:induction false} NoPrefixNoVars(s: string, p: nat, behind: string)
    requires p <= |s| && forall i :: p <= i <= |s| ==> !OccursAt(s, Prefix, i)
    ensures Scan(s, p, behind) == []
    decreases |s| - p
  {
    if p < |s| {
      NoPrefixNoVars(s, p + 1, behind);
    }
  }

  /** A line of the Markdown table, without its line break. */
  function TableLine(a: string, b: string, c: string): string {
    "| " + a + " | " + b + " | " + c + " |"
  }

  /** The two header lines, written first: the titles, then the separators. */
  const Header: string :=
    TableLine("Component", "CSS Variables", "Documented CSS Variables") + "\n"
    + TableLine("-----", "-----", "-----") + "\n"

  /** One table row (without its line break). */
  function Row(component: string, stylesheet: string): string {
    TableLine(component, Join(Vars(stylesheet), "<br />"), Join(DocumentedVars(stylesheet), "<br />"))
  }

  /** A table line opens with its first cell and breaks no line its cells do
      not break. */
  lemma TableLineShape(a: string, b: string, c: string)
    requires '\n' !in a && '\n' !in b && '\n' !in c
    ensures '\n' !in TableLine(a, b, c)
    ensures StartsWith(TableLine(a, b, c), "| " + a + " | ")
  {
    var cell := "| " + a + " | ";
    assert TableLine(a, b, c) == cell + (b + " | " + c + " |");
    assert TableLine(a, b, c)[..|cell|] == cell;
  }

  /** The position of the first component whose stylesheet cannot be read, or
      the number of components if every one can. */
  function FirstUnreadable(components: seq<string>, stylesheetOf: string -> Option<string>): (k: nat)
    ensures k <= |components|
    ensures forall j :: 0 <= j < k ==> stylesheetOf(components[j]).Some?
    ensures k < |components| ==> stylesheetOf(components[k]).None?
    decreases |components|
  {
    if |components| == 0 || stylesheetOf(components[0]).None? then 0
    else 1 + FirstUnreadable(components[1..], stylesheetOf)
  }

  /** The rows of components whose stylesheets were read, each made by `row`
      from the component and its stylesheet (the script's rows are made by
      `Row`; keeping the maker a parameter lets the proofs about the order of
      the rows leave the contents of a row aside). */
  function Rows(components: seq<string>, stylesheetOf: string -> Option<string>,
                row: (string, string) -> string): (r: seq<string>)
    requires forall j :: 0 <= j < |components| ==> stylesheetOf(components[j]).Some?
    ensures |r| == |components|
    decreases |components|
  {
    if |components| == 0 then []
    else
      var c := components[|components| - 1];
      Rows(components[..|components| - 1], stylesheetOf, row) + [row(c, stylesheetOf(c).value)]
  }

  /** The loop: a row per component until a stylesheet cannot be read, which
      throws out of the loop. */
  method WriteRows(components: seq<string>, stylesheetOf: string -> Option<string>)
    returns (text: string, failed: bool)
    ensures var k := FirstUnreadable(components, stylesheetOf);
      text == Terminated(Rows(components[..k], stylesheetOf, Row), '\n') && failed == (k < |components|)
  {
    text := "";
    ghost var k := FirstUnreadable(components, stylesheetOf);
    var index := 0;
    while index < |components|
      invariant 0 <= index <= k
      invariant text == Terminated(Rows(components[..index], stylesheetOf, Row), '\n')
    {
      var stylesheet := stylesheetOf(components[index]);
      if stylesheet.None? {
        return text, true;
      }
      RowsStep(components, stylesheetOf, Row, index);
      text := text + Row(components[index], stylesheet.value) + "\n";
      index := index + 1;
    }
    return text, false;
  }

  /** One more readable stylesheet adds its row and a line break. */
  lemma RowsStep(components: seq<string>, stylesheetOf: string -> Option<string>,
                 row: (string, string) -> string, index: nat)
    requires index < |components| && index < FirstUnreadable(components, stylesheetOf)
    ensures stylesheetOf(components[index]).Some?
    ensures Terminated(Rows(components[..index + 1], stylesheetOf, row), '\n')
         == Terminated(Rows(components[..index], stylesheetOf, row), '\n')
            + row(components[index], stylesheetOf(components[index]).value) + "\n"
  {
    var c := components[index];
    assert components[..index + 1][..index] == components[..index];
    TerminatedSnoc(Rows(components[..index], stylesheetOf, row), row(c, stylesheetOf(c).value), '\n');
  }

  /** The script: the header goes out first, then the rows; a failed read of
      the directory or of a stylesheet sets exit code 1 after what was already
      written. */
  method Run(entries: Option<seq<Dirent>>, stylesheetOf: string -> Option<string>)
    returns (file: string, exitCode: int)
    ensures entries.None? ==> file == Header && exitCode == 1
    ensures entries.Some? ==>
      var components := Without(GetDirectories(entries.value), AuditSkip);
      var k := FirstUnreadable(components, stylesheetOf);
      file == Header + Terminated(Rows(components[..k], stylesheetOf, Row), '\n')
      && exitCode == (if k < |components| then 1 else 0)
  {
    file := Header;
    if entries.None? {
      return file, 1;
    }
    var rows, failed := WriteRows(Without(GetDirectories(entries.value), AuditSkip), stylesheetOf);
    file := file + rows;
    exitCode := if failed then 1 else 0;
  }

  /** The header comes before any row, and there is exactly one row per
      component, in order, each opening with that component's cell. */
  lemma TableLines(components: seq<string>, stylesheetOf: string -> Option<string>)
    requires forall j :: 0 <= j < |components| ==> stylesheetOf(components[j]).Some? && '\n' !in components[j]
    ensures var lines := Split(Header + Terminated(Rows(components, stylesheetOf, Row), '\n'), '\n');
      |lines| == |components| + 3
      && lines[..2] == [TableLine("Component", "CSS Variables", "Documented CSS Variables"),
                        TableLine("-----", "-----", "-----")]
      && lines[|lines| - 1] == ""
      && forall k :: 0 <= k < |components| ==> StartsWith(lines[k + 2], "| " + components[k] + " | ")
  {
    var h := [TableLine("Component", "CSS Variables", "Documented CSS Variables"), TableLine("-----", "-----", "-----")];
    var rows := Rows(components, stylesheetOf, Row);
    RowsShape(components, stylesheetOf);
    HeaderLines();
    TerminatedAppend(h, rows, '\n');
    forall k | 0 <= k < |h + rows|
      ensures '\n' !in (h + rows)[k]
    {
      if k >= 2 {
        assert (h + rows)[k] == rows[k - 2];
      }
    }
    SplitTerminated(h + rows, '\n');
    var lines := Split(Header + Terminated(rows, '\n'), '\n');
    assert lines == h + rows + [""];
    forall k | 0 <= k < |components|
      ensures StartsWith(lines[k + 2], "| " + components[k] + " | ")
    {
      assert lines[k + 2] == rows[k];
    }
  }

  /** The header is two lines. */
  lemma HeaderLines()
    ensures Header == Terminated([TableLine("Component", "CSS Variables", "Documented CSS Variables"),
                                  TableLine("-----", "-----", "-----")], '\n')
    ensures '\n' !in TableLine("Component", "CSS Variables", "Documented CSS Variables")
    ensures '\n' !in TableLine("-----", "-----", "-----")
  {
    TableLineShape("Component", "CSS Variables", "Documented CSS Variables");
    TableLineShape("-----", "-----", "-----");
  }

  /** Each row keeps to one line and opens with its component's cell. */
  lemma {:induction false} RowsShape(components: seq<string>, stylesheetOf: string -> Option<string>)
    requires forall j :: 0 <= j < |components| ==> stylesheetOf(components[j]).Some? && '\n' !in components[j]
    ensures forall j :: 0 <= j < |components| ==>
      '\n' !in Rows(components, stylesheetOf, Row)[j]
      && StartsWith(Rows(components, stylesheetOf, Row)[j], "| " + components[j] + " | ")
    decreases |components|
  {
    if |components| > 0 {
      var init := components[..|components| - 1];
      var c := components[|components| - 1];
      RowsShape(init, stylesheetOf);
      var s := stylesheetOf(c).value;
      VarsOneLine(s);
      var row := Row(c, s);
      TableLineShape(c, Join(Vars(s), "<br />"), Join(DocumentedVars(s), "<br />"));
      var rows := Rows(components, stylesheetOf, Row);
      assert rows == Rows(init, stylesheetOf, Row) + [row];
      forall j | 0 <= j < |components|
        ensures '\n' !in rows[j] && StartsWith(rows[j], "| " + components[j] + " | ")
      {
        if j < |components| - 1 {
          assert rows[j] == Rows(init, stylesheetOf, Row)[j] && components[j] == init[j];
        }
      }
    }
  }

  /** Property names hold no line break, and neither do their joined lists. */
  lemma VarsOneLine(s: string)
    ensures '\n' !in Join(Vars(s), "<br />") && '\n' !in Join(DocumentedVars(s), "<br />")
  {
    ListNames(s, Vars(s), "");
    ListNames(s, DocumentedVars(s), DocTag);
    JoinOneLine(Vars(s));
    JoinOneLine(DocumentedVars(s));
  }

  lemma ListNames(s: string, names: seq<string>, behind: string)
    requires names == StringOrder.SortedUnique(Scan(s, 0, behind))
    ensures forall k :: 0 <= k < |names| ==> IsPropertyName(names[k])
  {
    ListsSortedAndUnique(s, names, behind);
  }

  lemma {:induction false} JoinOneLine(names: seq<string>)
    requires forall k :: 0 <= k < |names| ==> IsPropertyName(names[k])
    ensures '\n' !in Join(names, "<br />")
    decreases |names|
  {
    if |names| > 0 {
      var t := names[0];
      forall k | 0 <= k < |t|
        ensures t[k] != '\n'
      {
        if k < |Prefix| {
          assert t[k] == Prefix[k];
        } else {
          assert !IsStop(t[k]);
        }
      }
      if |names| > 1 {
        JoinOneLine(names[1..]);
      }
    }
  }

  lemma {:induction false} TerminatedAppend(a: seq<string>, b: seq<string>, sep: char)
    ensures Terminated(a + b, sep) == Terminated(a, sep) + Terminated(b, sep)
    decreases |a|
  {
    if |a| > 0 {
      assert (a + b)[1..] == a[1..] + b;
      TerminatedAppend(a[1..], b, sep);
    } else {
      assert a + b == b;
    }
  }
}
