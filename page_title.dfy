/**
 * The browser tab title of the web console: the page's own title, when it
 * has one, followed by " - " and the application title.
 */
module PageTitle {
  import opened Wrappers

  /** The fallback application title used when the settings carry none. */
  const DEFAULT_TITLE: string := "\U{76CA}\U{53EF}\U{8FBE}\U{8F68}\U{9053}\U{5DE1}\U{68C0}\U{7CFB}\U{7EDF}"

  const SEPARATOR: string := " - "

  /** JavaScript truthiness of a possibly undefined string: defined and not empty. */
  predicate Truthy(s: Option<string>) {
    s.Some? && s.value != []
  }

  /** `defaultSettings.title || fallback`: the settings title when truthy, else the fallback. */
  function AppTitle(settingsTitle: Option<string>): (title: string)
    ensures Truthy(settingsTitle) ==> title == settingsTitle.value
    ensures !Truthy(settingsTitle) ==> title == DEFAULT_TITLE
    ensures title != []
  {
    if Truthy(settingsTitle) then settingsTitle.value else DEFAULT_TITLE
  }

  /**
   * getPageTitle(pageTitle), with the application title as a parameter. The
   * tab title always ends with the application title, and is exactly the
   * application title when and only when the page title is falsy.
   */
  function GetPageTitle(pageTitle: Option<string>, title: string): (r: string)
    ensures |title| <= |r| && r[|r| - |title|..] == title
    ensures r == title <==> !Truthy(pageTitle)
  {
    if Truthy(pageTitle) then
      var r := pageTitle.value + SEPARATOR + title;
      assert r[|r| - |title|..] == title;
      r
    else title
  }

  /**
   * Reading a tab title back: the page title it carries, or None when it is
   * the bare application title.
   */
  function PageTitleOf(tabTitle: string, title: string): Option<string> {
    if |tabTitle| > |title| + |SEPARATOR| then Some(tabTitle[..|tabTitle| - |title| - |SEPARATOR|])
    else None
  }

  /** A truthy page title is followed by the separator and the application title. */
  lemma TitledPage(p: string, title: string)
    requires p != []
    ensures var r := GetPageTitle(Some(p), title);
            |r| == |p| + |SEPARATOR| + |title|
            && r[..|p|] == p && r[|p|..|p| + |SEPARATOR|] == SEPARATOR && r[|p| + |SEPARATOR|..] == title
  {
    var r := GetPageTitle(Some(p), title);
    assert r == p + SEPARATOR + title;
  }

  /**
   * The tab title determines the page title it was built from, up to
   * JavaScript truthiness: a truthy page title is recovered exactly, a
   * falsy one reads back as None.
   */
  lemma PageTitleRoundTrip(pageTitle: Option<string>, title: string)
    ensures PageTitleOf(GetPageTitle(pageTitle, title), title)
            == if Truthy(pageTitle) then pageTitle else None
  {
    if Truthy(pageTitle) {
      TitledPage(pageTitle.value, title);
    }
  }

  /** Two truthy page titles give the same tab title only when they are equal. */
  lemma GetPageTitleInjective(p1: string, p2: string, title: string)
    requires p1 != [] && p2 != []
    requires GetPageTitle(Some(p1), title) == GetPageTitle(Some(p2), title)
    ensures p1 == p2
  {
    PageTitleRoundTrip(Some(p1), title);
    PageTitleRoundTrip(Some(p2), title);
  }
}
