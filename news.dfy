/**
 * The news panel (components/News.tsx): announcements grouped under a fixed list
 * of five departments, each group headed by the capitalised department name, and
 * each announcement's text shown line by line.
 */
module News {
  import opened JsBuiltins

  /** The departments the panel shows, in display order. */
  const Departments: seq<string> := ["registration", "visa", "finance", "uniform", "canteen"]

  datatype NewsItem = NewsItem(
    id: int, department: string, title: string, content: string,
    createdAt: string, updatedAt: string, isActive: bool)

  /** `news.filter(item => item.department === dept)`. */
  function DepartmentNews(news: seq<NewsItem>, dept: string): (group: seq<NewsItem>)
    ensures forall item | item in group :: item in news && item.department == dept
    ensures forall item | item in news && item.department == dept :: item in group
    ensures IsSubsequence(group, news)
    ensures forall item | item in news :: multiset(group)[item] == if item.department == dept then multiset(news)[item] else 0
  {
    FilterCounts(news, (item: NewsItem) => item.department == dept);
    Filter(news, (item: NewsItem) => item.department == dept)
  }

  function DepartmentSet(): set<string> {
    set i | 0 <= i < |Departments| :: Departments[i]
  }

  /**
   * `groupNewsByDepartment`: a group for each of the five departments, empty ones
   * included, holding that department's items in their original order; an item
   * of any other department is in no group.
   */
  method GroupNewsByDepartment(news: seq<NewsItem>) returns (grouped: map<string, seq<NewsItem>>)
    ensures grouped.Keys == DepartmentSet()
    ensures forall dept | dept in grouped :: grouped[dept] == DepartmentNews(news, dept)
    ensures forall dept, item | dept in grouped && item in grouped[dept] :: item.department == dept
    ensures forall item | item in news && item.department in DepartmentSet() :: item in grouped[item.department]
    ensures forall item | item in news && item.department !in DepartmentSet() ::
              forall dept | dept in grouped :: item !in grouped[dept]
  {
    grouped := map[];
    for i := 0 to |Departments|
      invariant grouped.Keys == set j | 0 <= j < i :: Departments[j]
      invariant forall dept | dept in grouped :: grouped[dept] == DepartmentNews(news, dept)
    {
      var dept := Departments[i];
      grouped := grouped[dept := DepartmentNews(news, dept)];
    }
  }

  /** `hasNews`: the raw list is non-empty, whatever its groups hold. */
  predicate HasNews(news: seq<NewsItem>) {
    |news| > 0
  }

  /** An item of an unlisted department makes the panel have news while every group is empty. */
  lemma HasNewsIgnoresGroups(item: NewsItem)
    requires item.department !in DepartmentSet()
    ensures HasNews([item])
    ensures forall dept | dept in DepartmentSet() :: DepartmentNews([item], dept) == []
  {
  }

  /** The departments that get a section: those with at least one item, in display order. */
  function VisibleDepartments(grouped: map<string, seq<NewsItem>>): (shown: seq<string>)
    ensures forall dept | dept in shown :: dept in Departments && dept in grouped && grouped[dept] != []
    ensures forall dept | dept in Departments && dept in grouped && grouped[dept] != [] :: dept in shown
    ensures IsSubsequence(shown, Departments)
  {
    Filter(Departments, (dept: string) => dept in grouped && grouped[dept] != [])
  }

  /** When every item belongs to a listed department, the panel has news exactly when some section is shown. */
  lemma HasNewsWhenListed(news: seq<NewsItem>, grouped: map<string, seq<NewsItem>>)
    requires grouped.Keys == DepartmentSet()
    requires forall dept | dept in grouped :: grouped[dept] == DepartmentNews(news, dept)
    requires forall item | item in news :: item.department in DepartmentSet()
    ensures HasNews(news) <==> VisibleDepartments(grouped) != []
  {
    var shown := VisibleDepartments(grouped);
    if HasNews(news) {
      var item := news[0];
      assert item in news;
      var dept := item.department;
      assert item in grouped[dept];
      assert dept in Departments;
      assert dept in shown;
    }
    if shown != [] {
      var dept := shown[0];
      assert dept in shown;
      var item := grouped[dept][0];
      assert item in DepartmentNews(news, dept);
      assert item in news;
    }
  }

  // ---------------------------------------------------------------- headings

  /** `dept.charAt(0).toUpperCase() + dept.slice(1)`. */
  function Capitalise(s: string): (r: string)
    ensures |r| == |s|
    ensures s != [] ==> r[0] == UpperChar(s[0]) && r[1..] == s[1..]
  {
    if s == [] then [] else [UpperChar(s[0])] + s[1..]
  }

  function DepartmentHeading(dept: string): string {
    Capitalise(dept) + " Department"
  }

  lemma VisaHeading()
    ensures DepartmentHeading("visa") == "Visa Department"
  {
    assert Capitalise("visa") == "Visa";
  }

  // ---------------------------------------------------------------- content

  /** One rendered line: its text and whether a line break follows it. */
  datatype Segment = Segment(line: string, lineBreak: bool)

  /** The content split on newlines, a break after every line but the last. */
  function RenderContent(content: string): (segs: seq<Segment>)
    ensures |segs| == Occurrences(content, '\n') + 1
    ensures forall i | 0 <= i < |segs| :: segs[i].lineBreak <==> i < |segs| - 1
    ensures forall i | 0 <= i < |segs| :: segs[i].line == Split(content, '\n')[i]
  {
    var lines := Split(content, '\n');
    seq(|lines|, i requires 0 <= i < |lines| => Segment(lines[i], i < |lines| - 1))
  }

  function Lines(segs: seq<Segment>): seq<string> {
    seq(|segs|, i requires 0 <= i < |segs| => segs[i].line)
  }

  function CountBreaks(segs: seq<Segment>): nat
    decreases |segs|
  {
    if segs == [] then 0 else CountBreaks(segs[..|segs| - 1]) + (if segs[|segs| - 1].lineBreak then 1 else 0)
  }

  /** Content of n lines renders as n segments with n - 1 line breaks between them. */
  lemma RenderedBreaks(content: string)
    ensures var segs := RenderContent(content);
            CountBreaks(segs) == |segs| - 1
  {
    var segs := RenderContent(content);
    BreaksBeforeLast(segs, |segs| - 1);
    assert segs[..|segs|][..|segs| - 1] == segs[..|segs| - 1];
    assert segs[..|segs|] == segs;
  }

  lemma {:induction false} BreaksBeforeLast(segs: seq<Segment>, k: nat)
    requires k <= |segs| - 1
    requires forall i | 0 <= i < |segs| :: segs[i].lineBreak <==> i < |segs| - 1
    ensures CountBreaks(segs[..k]) == k
    decreases k
  {
    if k > 0 {
      assert segs[..k][..k - 1] == segs[..k - 1];
      BreaksBeforeLast(segs, k - 1);
    }
  }

  /** Joining the rendered lines with newlines gives back the content. */
  lemma RenderRoundTrip(content: string)
    ensures Join(Lines(RenderContent(content)), '\n') == content
  {
    assert Lines(RenderContent(content)) == Split(content, '\n');
    JoinSplit(content, '\n');
  }
}
