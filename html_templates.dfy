/** What the two HTML template scripts share: the shape of a component's demo
    page, the file it goes to, and the write loop. */
module HtmlTemplates {
  import opened Text
  import opened Components
  import opened Utils

  /** The fixed text of a page around its five interpolation points. */
  datatype Template = Template(head: string, assets: string, style: string, tail: string)

  /** The script and stylesheet of the pinned Calcite release, and the start of
      the style rule that names the component's element. */
  const Assets: string :=
    "\n"
    + "    <script\n"
    + "      type=\"module\"\n"
    + "      src=\"https://unpkg.com/@esri/calcite-components@1.0.0-beta.81/dist/calcite/calcite.esm.js\"\n"
    + "    ></script>\n"
    + "    <link\n"
    + "      rel=\"stylesheet\"\n"
    + "      type=\"text/css\"\n"
    + "      href=\"https://unpkg.com/@esri/calcite-components@1.0.0-beta.81/dist/calcite/calcite.css\"\n"
    + "    />\n"
    + "    <style>\n"
    + "      h1,\n"
    + "      "

  /** `getHTML(component)`: the component is the page title, the selector of
      the element's style rule, the heading and the custom element shown. */
  function Page(t: Template, component: string): string {
    t.head + TitleTag(component) + AfterTitle(t, component)
  }

  function TitleTag(component: string): string {
    "<title>" + component + "</title>"
  }

  function Selector(component: string): string {
    "calcite-" + component + " {"
  }

  function Heading(component: string): string {
    "<h1><code>" + component + "</code></h1>"
  }

  function Element(component: string): string {
    "<calcite-" + component + "></calcite-" + component + ">"
  }

  function AfterTitle(t: Template, component: string): string {
    t.assets + Selector(component) + AfterSelector(t, component)
  }

  function AfterSelector(t: Template, component: string): string {
    t.style + Heading(component) + AfterHeading(t, component)
  }

  function AfterHeading(t: Template, component: string): string {
    "\n\n      " + Element(component) + t.tail
  }

  /** `p` found between two texts. */
  lemma ContainsBetween(a: string, p: string, b: string)
    ensures Contains(a + p + b, p)
  {
    assert p[..|p|] == p;
    assert Contains(p, p);
    ContainsInfix(a, p, b, p);
  }

  /** `p` found in the end of a text. */
  lemma ContainsAfter(a: string, b: string, p: string)
    requires Contains(b, p)
    ensures Contains(a + b, p)
  {
    ContainsInfix(a, b, "", p);
    assert a + b + "" == a + b;
  }

  /** The page has the component as its title, its style selector, its
      heading and its element. */
  lemma PageShows(t: Template, component: string)
    ensures Contains(Page(t, component), TitleTag(component))
    ensures Contains(Page(t, component), Selector(component))
    ensures Contains(Page(t, component), Heading(component))
    ensures Contains(Page(t, component), Element(component))
  {
    var c := component;
    ContainsBetween(t.head, TitleTag(c), AfterTitle(t, c));
    ContainsBetween(t.assets, Selector(c), AfterSelector(t, c));
    ContainsAfter(t.head + TitleTag(c), AfterTitle(t, c), Selector(c));
    ContainsBetween(t.style, Heading(c), AfterHeading(t, c));
    ContainsAfter(t.assets + Selector(c), AfterSelector(t, c), Heading(c));
    ContainsAfter(t.head + TitleTag(c), AfterTitle(t, c), Heading(c));
    ContainsBetween("\n\n      ", Element(c), t.tail);
    ContainsAfter(t.style + Heading(c), AfterHeading(t, c), Element(c));
    ContainsAfter(t.assets + Selector(c), AfterSelector(t, c), Element(c));
    ContainsAfter(t.head + TitleTag(c), AfterTitle(t, c), Element(c));
  }

  /** Different components get different pages: the page depends on nothing
      but its component, and names it recoverably. */
  lemma PageInjective(t: Template, a: string, b: string)
    ensures Page(t, a) == Page(t, b) ==> a == b
  {
    var i := |t.head| + 7;
    assert Page(t, a)[i..i + |a|] == TitleTag(a)[7..7 + |a|] == a;
    assert Page(t, b)[i..i + |b|] == TitleTag(b)[7..7 + |b|] == b;
    if Page(t, a) == Page(t, b) {
      assert |a| == |b|;
    }
  }

  /** `${component}.html` */
  function FileName(component: string): string {
    component + ".html"
  }

  lemma FileNameInjective(a: string, b: string)
    ensures FileName(a) == FileName(b) ==> a == b
  {
    if FileName(a) == FileName(b) {
      assert a == FileName(a)[..|a|];
    }
  }

  /** The file names of a list of components. */
  function FileNames(components: seq<string>): set<string> {
    set c | c in components :: FileName(c)
  }

  /** The output directory after writing the pages of `components`, in order,
      into `dir` (file name to contents); a later write replaces an earlier one. */
  function Written(dir: map<string, string>, components: seq<string>, t: Template): map<string, string>
    decreases |components|
  {
    if |components| == 0 then dir
    else
      var c := components[|components| - 1];
      Written(dir, components[..|components| - 1], t)[FileName(c) := Page(t, c)]
  }

  /** One file per component is added, named after it. */
  lemma {:induction false} WrittenKeys(dir: map<string, string>, components: seq<string>, t: Template)
    ensures Written(dir, components, t).Keys == dir.Keys + FileNames(components)
    decreases |components|
  {
    if |components| > 0 {
      var init := components[..|components| - 1];
      WrittenKeys(dir, init, t);
      assert components == init + [components[|components| - 1]];
      assert FileNames(components) == FileNames(init) + {FileName(components[|components| - 1])};
    }
  }

  /** Each component's file holds its page. */
  lemma {:induction false} WrittenPages(dir: map<string, string>, components: seq<string>, t: Template, c: string)
    requires c in components
    ensures FileName(c) in Written(dir, components, t) && Written(dir, components, t)[FileName(c)] == Page(t, c)
    decreases |components|
  {
    var init := components[..|components| - 1];
    var last := components[|components| - 1];
    FileNameInjective(c, last);
    if c != last {
      assert components == init + [last];
      WrittenPages(dir, init, t, c);
    }
  }

  /** Every file that was there before and is not one of the pages keeps its
      contents. */
  lemma {:induction false} WrittenKeeps(dir: map<string, string>, components: seq<string>, t: Template, n: string)
    requires n in dir && n !in FileNames(components)
    ensures n in Written(dir, components, t) && Written(dir, components, t)[n] == dir[n]
    decreases |components|
  {
    if |components| > 0 {
      var init := components[..|components| - 1];
      assert components == init + [components[|components| - 1]];
      assert FileNames(init) <= FileNames(components);
      WrittenKeeps(dir, init, t, n);
    }
  }

  /** Writing the pages of the directories outside `skip` gives every such
      directory its page, and creates no file for a skipped one. */
  lemma PagesOfComponents(dir: map<string, string>, dirs: seq<string>, skip: seq<string>, t: Template, c: string)
    ensures var out := Written(dir, Without(dirs, skip), t);
      (c in dirs && c !in skip ==> FileName(c) in out && out[FileName(c)] == Page(t, c))
      && (c in skip && FileName(c) !in dir ==> FileName(c) !in out)
  {
    var components := Without(dirs, skip);
    WithoutMembers(dirs, skip);
    WrittenKeys(dir, components, t);
    if c in dirs && c !in skip {
      assert c in Elems(dirs) - Elems(skip);
      WrittenPages(dir, components, t, c);
    }
    if c in skip {
      forall d | d in components
        ensures FileName(d) != FileName(c)
      {
        FileNameInjective(d, c);
        assert d in Elems(components);
      }
    }
  }

  /** The `for ... of` loop of `writeFile` calls. `failAt`, if present, is the
      number of writes that succeed before one throws; the error is caught and
      the process exits with code 1. */
  method WritePages(dir: map<string, string>, components: seq<string>, t: Template, failAt: Option<nat>)
    returns (out: map<string, string>, exitCode: int)
    ensures (failAt.None? || failAt.value >= |components|) ==> out == Written(dir, components, t) && exitCode == 0
    ensures failAt.Some? && failAt.value < |components| ==>
      out == Written(dir, components[..failAt.value], t) && exitCode == 1
  {
    out := dir;
    var i := 0;
    while i < |components|
      invariant 0 <= i <= |components|
      invariant out == Written(dir, components[..i], t)
      invariant failAt.Some? ==> failAt.value >= i
    {
      if failAt == Some(i) {
        return out, 1;
      }
      var component := components[i];
      out := out[FileName(component) := Page(t, component)];
      assert components[..i + 1][..i] == components[..i];
      i := i + 1;
    }
    assert components[..i] == components;
    return out, 0;
  }

  /** Either script, with its page template `t`. `dir` is what the
      `html-templates` directory already holds; `mkdir` (recursive) and the
      directory read are awaited before any write, and a failure of either, or
      of a write, is caught and ends the process with code 1, keeping the files
      written so far. */
  method Run(t: Template, dir: map<string, string>, mkdirOk: bool, entries: Option<seq<Dirent>>, failAt: Option<nat>)
    returns (out: map<string, string>, exitCode: int)
    ensures !mkdirOk || entries.None? ==> out == dir && exitCode == 1
    ensures mkdirOk && entries.Some? ==>
      var components := Without(GetDirectories(entries.value), SkipComponents);
      if failAt.None? || failAt.value >= |components| then out == Written(dir, components, t) && exitCode == 0
      else out == Written(dir, components[..failAt.value], t) && exitCode == 1
  {
    if !mkdirOk || entries.None? {
      return dir, 1;
    }
    var components := Without(GetDirectories(entries.value), SkipComponents);
    out, exitCode := WritePages(dir, components, t, failAt);
  }
}

/** `src/calcite/create-html-templates.js`: one demo page per component, with a theme switch. */
module SrcCreateHtmlTemplates {
  import opened HtmlTemplates

  const Head: string :=
    "<!DOCTYPE html>\n"
    + "<html lang=\"en\">\n"
    + "  <head>\n"
    + "    <meta charset=\"utf-8\" />\n"
    + "    "

  const Style: string :=
    "\n"
    + "        margin-bottom: 5rem;\n"
    + "      }\n"
    + "      h2 {\n"
    + "        margin-bottom: 3rem;\n"
    + "      }\n"
    + "      body {\n"
    + "        font-family: var(--calcite-sans-family);\n"
    + "        font-size: var(--calcite-font-size-0);\n"
    + "        color: var(--calcite-ui-text-1);\n"
    + "        max-width: 1024px;\n"
    + "        min-width: 280px;\n"
    + "        width: 70vw;\n"
    + "        padding: 0 var(--calcite-spacing-double);\n"
    + "        margin: 0 auto;\n"
    + "        background-color: var(--calcite-ui-background);\n"
    + "      }\n"
    + "      /* Theme Switcher */\n"
    + "      #theme-label {\n"
    + "        position: fixed;\n"
    + "        top: 20px;\n"
    + "        right: 20px;\n"
    + "        z-index: 2;\n"
    + "        background-color: var(--calcite-ui-background);\n"
    + "        border: 1px solid;\n"
    + "        border-color: var(--calcite-ui-border-1);\n"
    + "        border-radius: var(--calcite-border-radius);\n"
    + "        margin: 0;\n"
    + "        padding: 10px;\n"
    + "      }\n"
    + "      #theme-label label {\n"
    + "        margin: 0;\n"
    + "      }\n"
    + "    </style>\n"
    + "  </head>\n"
    + "  <body>\n"
    + "    <main>\n"
    + "\n"
    + "      <!-- calcite-switch -->\n"
    + "      <div id=\"theme-label\">\n"
    + "        <calcite-label layout=\"inline\">\n"
    + "        Toggle theme\n"
    + "        <calcite-switch id=\"theme-switch\"></calcite-switch>\n"
    + "        </calcite-label>\n"
    + "      </div>\n"
    + "\n"
    + "      "

  const Tail: string :=
    "\n"
    + "\n"
    + "    </main>\n"
    + "  </body>\n"
    + "\n"
    + "  <script>\n"
    + "    window.onload = () => {\n"
    + "      // Theme Switcher\n"
    + "      const themeSwitch = document.getElementById(\"theme-switch\");\n"
    + "      themeSwitch.addEventListener(\"calciteSwitchChange\", () => {\n"
    + "      document.body.classList.toggle(\"calcite-theme-dark\");\n"
    + "      });\n"
    + "    };\n"
    + "\n"
    + "  </script>\n"
    + "</html>"

  const PageTemplate: Template := Template(Head, Assets, Style, Tail)

  function GetHTML(component: string): string {
    Page(PageTemplate, component)
  }
}

/** `calcite/create-html-templates.js`: one demo page per component; the older, shorter page with a viewport tag. */
module CalciteCreateHtmlTemplates {
  import opened HtmlTemplates

  const Head: string :=
    "<!DOCTYPE html>\n"
    + "<html lang=\"en\">\n"
    + "  <head>\n"
    + "    <meta charset=\"utf-8\" />\n"
    + "    <meta\n"
    + "      name=\"viewport\"\n"
    + "      content=\"initial-scale=1, maximum-scale=1, user-scalable=no\"\n"
    + "    />\n"
    + "    "

  const Style: string :=
    "\n"
    + "        margin-bottom: 5rem;\n"
    + "      }\n"
    + "      h2 {\n"
    + "        margin-bottom: 3rem;\n"
    + "      }\n"
    + "      main {\n"
    + "        padding: 3rem;\n"
    + "      }\n"
    + "    </style>\n"
    + "  </head>\n"
    + "  <body>\n"
    + "    <main>\n"
    + "      "

  const Tail: string :=
    "\n"
    + "    </main>\n"
    + "  </body>\n"
    + "</html>"

  const PageTemplate: Template := Template(Head, Assets, Style, Tail)

  function GetHTML(component: string): string {
    Page(PageTemplate, component)
  }
}
