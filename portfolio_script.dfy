/**
 * The client-side logic of the portfolio page: the search button's guard and
 * the category filter that repopulates the list of PDF links. The page's
 * elements are modelled as plain data: each filter button is its filter tag
 * plus an "active" flag, each project card is its title and category, and the
 * results container is the sequence of rendered link items.
 */
module PortfolioScript {

  datatype Option<T> = None | Some(value: T)

  // ---------------------------------------------------------------------------
  // Search button
  // ---------------------------------------------------------------------------

  const SearchPrefix: string := "You searched for: "

  /**
   * The notification a click on the search button shows for the text in the
   * search field: none for the empty (falsy) string, otherwise the prefix
   * followed by exactly the query.
   */
  function SearchNotice(query: string): (r: Option<string>)
    ensures r.None? <==> query == ""
    ensures r.Some? ==> |r.value| == |SearchPrefix| + |query|
    ensures r.Some? ==> r.value[..|SearchPrefix|] == SearchPrefix && r.value[|SearchPrefix|..] == query
  {
    if query == "" then None else Some(SearchPrefix + query)
  }

  // ---------------------------------------------------------------------------
  // Category filter: data
  // ---------------------------------------------------------------------------

  /** A project card: its heading text and its category attribute. */
  datatype Project = Project(title: string, category: string)

  /** An entry of the static PDF catalog. */
  datatype PdfLink = PdfLink(name: string, url: string)

  /** One rendered result: the link target and the link text. */
  datatype PdfItem = PdfItem(href: string, text: string)

  /** The tag of the filter button that shows every project. */
  const AllTag: string := "all"

  /** The static catalog rendered for every matching project, in page order. */
  const Catalog: seq<PdfLink> := [
    PdfLink("DSA", "./assets/dsa.pdf"),
    PdfLink("CPP-OOPS", "./assets/ooos-cpp.pdf"),
    PdfLink("SQL", "./assets/sql.pdf"),
    PdfLink("PYTHON", "./assets/mernstack.pdf"),
    PdfLink("DBMS", "./assets/dbms.pdf"),
    PdfLink("OPERATING SYSTEM", "./assets/os.pdf"),
    PdfLink("COMPUTER NETWORK", "./assets/cn.pdf"),
    PdfLink("REACT 1", "./assets/React_merged.pdf"),
    PdfLink("REACT 2", "./assets/reactjs.pdf"),
    PdfLink("MERN STACK", "./assets/mernstack.pdf"),
    PdfLink("FLUTTER CLEAN ARCHITECTURE", "./assets/flutter-clean.pdf"),
    PdfLink("WEB", "./assets/web.pdf"),
    PdfLink("MYSQL-REACT", "./assets/mysql-react.pdf")
  ]

  /**
   * The catalog has 13 entries with pairwise different names, so the labels in
   * one project's group are pairwise different; the urls are not: "PYTHON" and
   * "MERN STACK" both link to ./assets/mernstack.pdf.
   */
  lemma CatalogEntries()
    ensures |Catalog| == 13
    ensures forall i, j :: 0 <= i < j < |Catalog| ==> Catalog[i].name != Catalog[j].name
    ensures Catalog[3].name == "PYTHON" && Catalog[9].name == "MERN STACK"
    ensures Catalog[3].url == Catalog[9].url == "./assets/mernstack.pdf"
  {
  }

  // ---------------------------------------------------------------------------
  // Category filter: specification
  // ---------------------------------------------------------------------------

  /** A project is shown for the "all" tag, or when its category equals the tag. */
  predicate Matches(filter: string, p: Project) {
    filter == AllTag || p.category == filter
  }

  /** A catalog entry rendered for a project: "<name> - <project title>". */
  function Render(link: PdfLink, title: string): PdfItem {
    PdfItem(link.url, link.name + " - " + title)
  }

  /** The given catalog entries, each rendered for the same project title. */
  function RenderAll(links: seq<PdfLink>, title: string): seq<PdfItem> {
    if links == [] then []
    else RenderAll(links[..|links| - 1], title) + [Render(links[|links| - 1], title)]
  }

  /** The items one project contributes under a filter tag. */
  function Group(filter: string, catalog: seq<PdfLink>, p: Project): seq<PdfItem> {
    if Matches(filter, p) then RenderAll(catalog, p.title) else []
  }

  /** The items the whole list of projects contributes, project by project. */
  function Results(filter: string, catalog: seq<PdfLink>, projects: seq<Project>): seq<PdfItem> {
    if projects == [] then []
    else Results(filter, catalog, projects[..|projects| - 1]) + Group(filter, catalog, projects[|projects| - 1])
  }

  /** The projects that match a filter tag, in page order. */
  function Matching(filter: string, projects: seq<Project>): seq<Project> {
    if projects == [] then []
    else
      var last := projects[|projects| - 1];
      Matching(filter, projects[..|projects| - 1]) + (if Matches(filter, last) then [last] else [])
  }

  // ---------------------------------------------------------------------------
  // Category filter: properties of the specification
  // ---------------------------------------------------------------------------

  /** Rendering keeps the catalog's order and labels each entry with the title. */
  lemma {:induction false} RenderAllAt(links: seq<PdfLink>, title: string, k: nat)
    requires k < |links|
    ensures |RenderAll(links, title)| == |links|
    ensures RenderAll(links, title)[k] == PdfItem(links[k].url, links[k].name + " - " + title)
  {
    if k < |links| - 1 {
      RenderAllAt(links[..|links| - 1], title, k);
    } else if |links| > 1 {
      RenderAllAt(links[..|links| - 1], title, 0);
    }
  }

  /** Under the "all" tag every project matches, whatever its category. */
  lemma {:induction false} MatchingAll(projects: seq<Project>)
    ensures Matching(AllTag, projects) == projects
  {
    if projects != [] {
      MatchingAll(projects[..|projects| - 1]);
    }
  }

  /**
   * A project is among the matching ones exactly when it is on the page and
   * matches; for a tag other than "all" that is exactly when its category
   * equals the tag.
   */
  lemma {:induction false} MatchingMembers(filter: string, projects: seq<Project>, p: Project)
    ensures p in Matching(filter, projects) <==> p in projects && Matches(filter, p)
    ensures filter != AllTag ==> (p in Matching(filter, projects) <==> p in projects && p.category == filter)
  {
    if projects != [] {
      var init := projects[..|projects| - 1];
      MatchingMembers(filter, init, p);
      assert projects == init + [projects[|projects| - 1]];
    }
  }

  /** The output holds one copy of the catalog for every matching project and nothing else. */
  lemma {:induction false} ResultsLength(filter: string, catalog: seq<PdfLink>, projects: seq<Project>)
    ensures |Results(filter, catalog, projects)| == |catalog| * |Matching(filter, projects)|
  {
    if projects != [] {
      var init, last := projects[..|projects| - 1], projects[|projects| - 1];
      ResultsLength(filter, catalog, init);
      RenderAllLength(catalog, last.title);
      var n := |Matching(filter, init)|;
      assert |catalog| * (n + 1) == |catalog| * n + |catalog|;
    }
  }

  /**
   * One rendered item per catalog entry; unlike RenderAllAt this also covers
   * an empty catalog, which ResultsLength needs.
   */
  lemma {:induction false} RenderAllLength(links: seq<PdfLink>, title: string)
    ensures |RenderAll(links, title)| == |links|
  {
    if links != [] {
      RenderAllLength(links[..|links| - 1], title);
    }
  }

  /** The catalog rendered for each of the given projects in turn, with no filtering. */
  function RenderEach(catalog: seq<PdfLink>, projects: seq<Project>): seq<PdfItem> {
    if projects == [] then []
    else RenderEach(catalog, projects[..|projects| - 1]) + RenderAll(catalog, projects[|projects| - 1].title)
  }

  /**
   * Filtering and rendering separate: the output is the catalog rendered for
   * each matching project, one whole copy after another, in page order.
   */
  lemma {:induction false} ResultsGroupedByProject(filter: string, catalog: seq<PdfLink>, projects: seq<Project>)
    ensures Results(filter, catalog, projects) == RenderEach(catalog, Matching(filter, projects))
  {
    if projects != [] {
      var init, last := projects[..|projects| - 1], projects[|projects| - 1];
      ResultsGroupedByProject(filter, catalog, init);
      if Matches(filter, last) {
        var ms := Matching(filter, projects);
        assert ms[..|ms| - 1] == Matching(filter, init);
      } else {
        assert Matching(filter, projects) == Matching(filter, init);
        assert Results(filter, catalog, projects) == Results(filter, catalog, init);
      }
    }
  }

  /**
   * The output is the catalog repeated once per matching project: the item at
   * position |catalog| * m + k is catalog entry k labelled with the m-th
   * matching project's title, so results are grouped by project in page order
   * and, within a group, in catalog order.
   */
  lemma {:induction false} ResultsAt(filter: string, catalog: seq<PdfLink>, projects: seq<Project>, m: nat, k: nat)
    requires m < |Matching(filter, projects)| && k < |catalog|
    ensures |Results(filter, catalog, projects)| == |catalog| * |Matching(filter, projects)|
    ensures |catalog| * m + k < |Results(filter, catalog, projects)|
         && Results(filter, catalog, projects)[|catalog| * m + k]
            == PdfItem(catalog[k].url, catalog[k].name + " - " + Matching(filter, projects)[m].title)
  {
    var init, last := projects[..|projects| - 1], projects[|projects| - 1];
    ResultsLength(filter, catalog, projects);
    ResultsLength(filter, catalog, init);
    var c, n := |catalog|, |Matching(filter, init)|;
    var prefix := Results(filter, catalog, init);
    GroupOffsetBelow(c, m, n + 1, k);
    assert Results(filter, catalog, projects) == prefix + Group(filter, catalog, last);
    if m < n {
      ResultsAt(filter, catalog, init, m, k);
      assert Matching(filter, projects)[m] == Matching(filter, init)[m];
    } else {
      assert m == n && Matches(filter, last);
      assert Matching(filter, projects)[m] == last;
      RenderAllAt(catalog, last.title, k);
    }
  }

  /** Item k of group m lies before group n whenever m < n. */
  lemma {:induction false} GroupOffsetBelow(c: nat, m: nat, n: nat, k: nat)
    requires m < n && k < c
    ensures c * m + k < c * n
  {
    if m + 1 < n {
      GroupOffsetBelow(c, m, n - 1, k);
    }
  }

  // ---------------------------------------------------------------------------
  // Category filter: the page state and the click handler
  // ---------------------------------------------------------------------------

  /**
   * The filter section of the page. The buttons' tags and the project cards
   * are fixed once the page has loaded; the buttons' active flags and the
   * contents of the results container change on each click.
   */
  class FilterPanel {
    const filters: seq<string>
    const projects: seq<Project>
    var active: seq<bool>
    var pdfList: seq<PdfItem>

    /** Every button has exactly one active flag. */
    predicate Valid()
      reads this
    {
      |active| == |filters|
    }

    /** The page as loaded: whatever buttons are marked and results are shown. */
    constructor (filters: seq<string>, projects: seq<Project>, active: seq<bool>, pdfList: seq<PdfItem>)
      requires |active| == |filters|
      ensures Valid()
      ensures this.filters == filters && this.projects == projects
      ensures this.active == active && this.pdfList == pdfList
    {
      this.filters := filters;
      this.projects := projects;
      this.active := active;
      this.pdfList := pdfList;
    }

    /** Appends every catalog entry, in catalog order, labelled with a project's title. */
    method AppendCatalog(title: string)
      modifies this`pdfList
      ensures pdfList == old(pdfList) + RenderAll(Catalog, title)
    {
      var j := 0;
      while j < |Catalog|
        invariant 0 <= j <= |Catalog|
        invariant pdfList == old(pdfList) + RenderAll(Catalog[..j], title)
      {
        assert Catalog[..j + 1][..j] == Catalog[..j];
        pdfList := pdfList + [Render(Catalog[j], title)];
        j := j + 1;
      }
      assert Catalog[..j] == Catalog;
    }

    /**
     * A click on filter button `index`: every button loses its active flag,
     * the clicked one gains it, the results container is emptied, and the
     * whole catalog is appended, labelled with the project's title, for each
     * project that matches the button's tag.
     */
    method Click(index: nat)
      requires Valid()
      requires index < |filters|
      modifies this
      ensures Valid()
      ensures forall k :: 0 <= k < |active| ==> (active[k] <==> k == index)
      ensures pdfList == Results(filters[index], Catalog, projects)
    {
      var filter := filters[index];

      var b := 0;
      while b < |active|
        invariant |active| == |filters| && 0 <= b <= |active|
        invariant forall k :: 0 <= k < b ==> !active[k]
        modifies this`active
      {
        active := active[b := false];
        b := b + 1;
      }
      active := active[index := true];

      pdfList := [];

      var p := 0;
      while p < |projects|
        invariant 0 <= p <= |projects|
        invariant pdfList == Results(filter, Catalog, projects[..p])
        modifies this`pdfList
      {
        var project := projects[p];
        assert projects[..p + 1][..p] == projects[..p];
        if filter == AllTag || project.category == filter {
          AppendCatalog(project.title);
        }
        p := p + 1;
      }
      assert projects[..p] == projects;
    }
  }

  /**
   * Two project cards, "A" in category "web" and "B" in category "cpp": the
   * "web" button shows the 13 catalog entries labelled for A, the "cpp" button
   * the same entries labelled for B, and the "all" button 26 entries.
   */
  lemma TwoProjectScenario()
    ensures Results("web", Catalog, [Project("A", "web"), Project("B", "cpp")]) == RenderAll(Catalog, "A")
    ensures Results("cpp", Catalog, [Project("A", "web"), Project("B", "cpp")]) == RenderAll(Catalog, "B")
    ensures |Results(AllTag, Catalog, [Project("A", "web"), Project("B", "cpp")])| == 26
  {
    var ps := [Project("A", "web"), Project("B", "cpp")];
    assert ps[..1] == [Project("A", "web")] && ps[..1][..0] == [];
    ResultsLength(AllTag, Catalog, ps);
    MatchingAll(ps);
  }
}
