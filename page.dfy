/** The page component's state and its handlers: the theme toggle and its
    persisted copy, the search box, the carousel buttons and the visibility
    observer callback. */
module Page {
  import opened Text
  import opened Courses
  import opened Carousel

  /** `b.toString()` for a boolean: "true" or "false", and "true" exactly
      for `true`. */
  function BoolText(b: bool): (s: string)
    ensures s == "true" || s == "false"
    ensures (s == "true") == b
  {
    if b then "true" else "false"
  }

  /** The key under which the theme is stored. */
  const ThemeKey := "darkMode"

  /** The theme read at start-up. Without a window it is light; otherwise it
      is dark exactly when the text stored under the theme key is "true", so a
      missing entry (`null`) or any other text means light. */
  function InitialDarkMode(hasWindow: bool, storage: map<string, string>): (dark: bool)
    ensures !hasWindow ==> !dark
    ensures ThemeKey !in storage ==> !dark
    ensures dark ==> ThemeKey in storage && storage[ThemeKey] == "true"
    ensures hasWindow && ThemeKey in storage && storage[ThemeKey] == "true" ==> dark
  {
    hasWindow && ThemeKey in storage && storage[ThemeKey] == "true"
  }

  /** Reading back what the theme effect wrote restores the same theme,
      whatever else the storage holds. */
  lemma PersistRoundTrip(dark: bool, storage: map<string, string>)
    ensures InitialDarkMode(true, storage[ThemeKey := BoolText(dark)]) == dark
  {
  }

  /** The ids of the page's `section` elements, the only targets the
      visibility observer is registered on. */
  const SectionIds: set<string> :=
    {"news", "achievements", "programs", "facilities", "courses", "events", "stats", "contact"}

  /** The page has eight sections, with eight distinct ids. */
  lemma SectionCount()
    ensures |SectionIds| == 8
  {
  }

  /** One intersection-observer entry: whether its target is now in view, and
      the target's id. */
  datatype Entry = Entry(isIntersecting: bool, targetId: string)

  /** The ids of the entries in a batch whose targets are intersecting. */
  function IntersectingIds(entries: seq<Entry>): set<string>
  {
    set k | 0 <= k < |entries| && entries[k].isIntersecting :: entries[k].targetId
  }

  /** Every entry of a batch targets one of the observed sections. */
  predicate ObservedTargets(entries: seq<Entry>)
  {
    forall k :: 0 <= k < |entries| ==> entries[k].targetId in SectionIds
  }

  class App {
    /** Whether the page runs in a browser: without a window nothing is read
        from or written to storage. */
    const hasWindow: bool
    var darkMode: bool
    var searchQuery: string
    var currentNewsIndex: int
    var visibleSections: set<string>
    /** The browser's local storage. */
    var storage: map<string, string>

    /** The carousel position indexes the news list, in a browser the stored
        theme agrees with the live one, and only observed sections are ever
        recorded. */
    ghost predicate Valid()
      reads this
    {
      && 0 <= currentNewsIndex < |NewsItems()|
      && (hasWindow ==> ThemeKey in storage && storage[ThemeKey] == BoolText(darkMode))
      && visibleSections <= SectionIds
    }

    /** Mounting the component: the theme comes from storage, the query is
        empty, the carousel shows the first entry and no section has been
        seen; in a browser the theme effect then writes the theme back. */
    constructor (hasWindow: bool, storage: map<string, string>)
      ensures Valid()
      ensures this.hasWindow == hasWindow
      ensures darkMode == InitialDarkMode(hasWindow, storage)
      ensures searchQuery == "" && currentNewsIndex == 0 && visibleSections == {}
      ensures this.storage == if hasWindow then storage[ThemeKey := BoolText(darkMode)] else storage
    {
      var dark := InitialDarkMode(hasWindow, storage);
      this.hasWindow := hasWindow;
      darkMode := dark;
      searchQuery := "";
      currentNewsIndex := 0;
      visibleSections := {};
      this.storage := if hasWindow then storage[ThemeKey := BoolText(dark)] else storage;
    }

    /** `toggleTheme`: flips the theme; the effect stores the new value. */
    method ToggleTheme()
      requires Valid()
      modifies this
      ensures Valid()
      ensures darkMode == !old(darkMode)
      ensures storage == if hasWindow then old(storage)[ThemeKey := BoolText(darkMode)] else old(storage)
      ensures searchQuery == old(searchQuery) && currentNewsIndex == old(currentNewsIndex)
      ensures visibleSections == old(visibleSections)
    {
      darkMode := !darkMode;
      if hasWindow {
        storage := storage[ThemeKey := BoolText(darkMode)];
      }
    }

    /** The search box's change handler: the query becomes the typed text. */
    method SetSearchQuery(q: string)
      requires Valid()
      modifies this
      ensures Valid()
      ensures searchQuery == q
      ensures darkMode == old(darkMode) && storage == old(storage)
      ensures currentNewsIndex == old(currentNewsIndex) && visibleSections == old(visibleSections)
    {
      searchQuery := q;
    }

    /** `nextNews`: the carousel moves one entry forward, wrapping around. */
    method NextNews()
      requires Valid()
      modifies this
      ensures Valid()
      ensures currentNewsIndex == Next(old(currentNewsIndex), |NewsItems()|)
      ensures darkMode == old(darkMode) && storage == old(storage)
      ensures searchQuery == old(searchQuery) && visibleSections == old(visibleSections)
    {
      currentNewsIndex := JsRem(currentNewsIndex + 1, |NewsItems()|);
    }

    /** `prevNews`: the carousel moves one entry back, wrapping around. */
    method PrevNews()
      requires Valid()
      modifies this
      ensures Valid()
      ensures currentNewsIndex == Prev(old(currentNewsIndex), |NewsItems()|)
      ensures darkMode == old(darkMode) && storage == old(storage)
      ensures searchQuery == old(searchQuery) && visibleSections == old(visibleSections)
    {
      currentNewsIndex := JsRem(currentNewsIndex - 1 + |NewsItems()|, |NewsItems()|);
    }

    /** The observer callback: each intersecting entry's id joins the set of
        visible sections. The set only grows, and a batch whose ids are all
        recorded already leaves it as it was. */
    method OnIntersect(entries: seq<Entry>)
      requires Valid()
      requires ObservedTargets(entries)
      modifies this
      ensures Valid()
      ensures visibleSections == old(visibleSections) + IntersectingIds(entries)
      ensures old(visibleSections) <= visibleSections
      ensures IntersectingIds(entries) <= old(visibleSections) ==> visibleSections == old(visibleSections)
      ensures darkMode == old(darkMode) && storage == old(storage)
      ensures searchQuery == old(searchQuery) && currentNewsIndex == old(currentNewsIndex)
    {
      var k := 0;
      while k < |entries|
        invariant 0 <= k <= |entries|
        invariant visibleSections == old(visibleSections) + IntersectingIds(entries[..k])
        invariant visibleSections <= SectionIds
        invariant darkMode == old(darkMode) && storage == old(storage)
        invariant searchQuery == old(searchQuery) && currentNewsIndex == old(currentNewsIndex)
      {
        var entry := entries[k];
        if entry.isIntersecting {
          visibleSections := visibleSections + {entry.targetId};
        }
        assert entries[..k + 1] == entries[..k] + [entry];
        IntersectingIdsSnoc(entries[..k], entry);
        k := k + 1;
      }
      assert entries[..k] == entries;
    }

    /** The courses listed under the search box: exactly the catalog's
        courses that match the current query. */
    function FilteredCourses(): (r: seq<Course>)
      reads this
      ensures |r| <= |Catalog()|
      ensures forall c :: c in r <==> c in Catalog() && Matches(c, searchQuery)
    {
      forall c ensures c in Filter(Catalog(), searchQuery) <==> c in Catalog() && Matches(c, searchQuery) {
        FilterMembership(Catalog(), searchQuery, c);
      }
      Filter(Catalog(), searchQuery)
    }

    /** The news entry the carousel shows: the read is always in bounds. */
    function CurrentNews(): (item: NewsItem)
      reads this
      requires Valid()
      ensures item in NewsItems()
    {
      NewsItems()[currentNewsIndex]
    }

    /** Whether a section plays its entrance animation: only a section of the
        page can. */
    predicate IsVisible(id: string)
      reads this
      ensures Valid() && IsVisible(id) ==> id in SectionIds
    {
      id in visibleSections
    }
  }

  /** Extending a batch by one entry adds that entry's id when it intersects. */
  lemma IntersectingIdsSnoc(entries: seq<Entry>, e: Entry)
    ensures IntersectingIds(entries + [e])
         == IntersectingIds(entries) + (if e.isIntersecting then {e.targetId} else {})
  {
    var extended := entries + [e];
    assert forall k :: 0 <= k < |entries| ==> extended[k] == entries[k];
    assert extended[|entries|] == e;
  }

  /** A session with the theme toggle: mount with "true" stored, toggle
      twice, then reload; and a mount without a window. */
  method ThemeSession()
  {
    var app := new App(true, map[ThemeKey := "true"]);
    assert app.darkMode;
    app.ToggleTheme();
    assert !app.darkMode && app.storage[ThemeKey] == "false";
    app.ToggleTheme();
    assert app.darkMode && app.storage[ThemeKey] == "true";
    var reloaded := new App(true, app.storage);
    assert reloaded.darkMode == app.darkMode;

    var server := new App(false, map[]);
    assert !server.darkMode && server.storage == map[];
  }

  /** A session with the carousel: back from the first entry wraps to the
      last, then two steps forward show the second. */
  method CarouselSession()
  {
    var app := new App(true, map[]);
    app.PrevNews();
    assert app.currentNewsIndex == 2;
    app.NextNews();
    app.NextNews();
    assert app.currentNewsIndex == 1;
    var shown := app.CurrentNews();
    assert shown == HackathonWin;
  }

  /** A session with the search box: typing "NET" lists NET101 alone. */
  method SearchSession()
  {
    var app := new App(true, map[]);
    app.SetSearchQuery("NET");
    assert app.FilteredCourses() == [Networks] by {
      assert Lower("NET") == Lower("net");
      FilterCaseInsensitive(Catalog(), "NET", "net");
      NetQueryExample();
    }
  }

  /** A session with the observer: a batch with one section in view records
      it, and the same batch again changes nothing. */
  method ScrollSession()
  {
    var app := new App(true, map[]);
    var seen, hidden := Entry(true, "news"), Entry(false, "courses");
    IntersectingIdsSnoc([], seen);
    IntersectingIdsSnoc([seen], hidden);
    assert [seen] + [hidden] == [seen, hidden];
    app.OnIntersect([seen, hidden]);
    assert app.visibleSections == {"news"};
    app.OnIntersect([seen]);
    assert app.visibleSections == {"news"};
    assert app.IsVisible("news") && !app.IsVisible("courses");
  }
}
