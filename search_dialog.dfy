/**
 * The search dialog as a state machine: the query, the results shown for it
 * and the highlighted row, updated by opening the dialog, by typing and by
 * the arrow, Enter and Escape keys. The fuzzy ranking engine is a given
 * function from a query to its ranked documents.
 */
module SearchDialog {
  import opened Wrappers
  import opened Strings
  import opened SearchIndex

  /** At most this many results are shown. */
  const MaxResults: nat := 8

  datatype Key = ArrowDown | ArrowUp | Enter | Escape | OtherKey(name: string)

  /** `!query.trim()`: the query is empty or all white space. */
  predicate Blank(query: string) {
    forall i :: 0 <= i < |query| ==> IsSpace(query[i])
  }

  /**
   * The results shown for a query: none for a blank query, otherwise the
   * engine's first eight, in the engine's order.
   */
  function ResultsFor(ranked: seq<SearchDocument>, query: string): (r: seq<SearchDocument>)
    ensures Blank(query) ==> r == []
    ensures !Blank(query) ==> |r| == (if |ranked| < MaxResults then |ranked| else MaxResults)
    ensures r == ranked[..|r|] && |r| <= MaxResults
  {
    if Blank(query) then []
    else if |ranked| <= MaxResults then ranked
    else ranked[..MaxResults]
  }

  /** `!query.trim()`, computed by trimming. */
  method IsBlank(query: string) returns (blank: bool)
    ensures blank <==> Blank(query)
  {
    blank := Trim(query) == "";
  }

  /** ArrowDown: one row down, stopping at the last row; with no rows this is -1. */
  function ArrowDownIndex(selected: int, count: nat): (r: int)
    ensures r <= count - 1 && r <= selected + 1
    ensures r == selected + 1 || r == count - 1
    ensures 0 <= selected < count ==> 0 <= r < count
    ensures count == 0 && selected >= -1 ==> r == -1
  {
    if selected + 1 < count - 1 then selected + 1 else count - 1
  }

  /** ArrowUp: one row up, stopping at the first. */
  function ArrowUpIndex(selected: int): (r: int)
    ensures r >= 0 && r >= selected - 1
    ensures r == selected - 1 || r == 0
  {
    if selected - 1 > 0 then selected - 1 else 0
  }

  /** `results[selectedIndex]`: the highlighted document, when the index is a row. */
  function Selected(results: seq<SearchDocument>, selected: int): (r: Option<SearchDocument>)
    ensures r.Some? <==> 0 <= selected < |results|
    ensures r.Some? ==> r.value == results[selected]
  {
    if 0 <= selected < |results| then Some(results[selected]) else None
  }

  /** Where a result leads: `/docs`, then `/` and the slug unless the slug is empty. */
  function Target(slug: string): (r: string)
    ensures StartsWith(r, "/docs")
    ensures slug == "" <==> r == "/docs"
  {
    "/docs" + (if slug != "" then "/" + slug else "")
  }

  /** A result's target is the docs section followed by the slug's own segments. */
  lemma TargetSegments(slug: string)
    ensures Segments(Target(slug)) == ["docs"] + Segments(slug)
  {
    assert Segments("docs") == ["docs"] by {
      SegmentsOfName("docs");
    }
    if slug == "" {
      assert Target(slug) == "/" + "docs";
      SegmentsLeadingSlash("docs");
      assert Segments(slug) == [] by {
        assert Split("", '/') == [""];
      }
    } else {
      assert Target(slug) == "/" + ("docs" + "/" + slug);
      SegmentsLeadingSlash("docs" + "/" + slug);
      SegmentsAtSlash("docs", slug);
    }
  }

  // ---------------------------------------------------------------------------
  // Repeated key presses
  // ---------------------------------------------------------------------------

  /** The highlighted row after pressing ArrowDown n times. */
  function DownTimes(selected: int, count: nat, n: nat): int
    decreases n
  {
    if n == 0 then selected else DownTimes(ArrowDownIndex(selected, count), count, n - 1)
  }

  /** The highlighted row after pressing ArrowUp n times. */
  function UpTimes(selected: int, n: nat): int
    decreases n
  {
    if n == 0 then selected else UpTimes(ArrowUpIndex(selected), n - 1)
  }

  /** Holding ArrowDown walks n rows down and then stays on the last row. */
  lemma {:induction false} DownTimesClamps(selected: int, count: nat, n: nat)
    requires 0 <= selected < count
    ensures DownTimes(selected, count, n) == if selected + n < count - 1 then selected + n else count - 1
    decreases n
  {
    if n > 0 {
      DownTimesClamps(ArrowDownIndex(selected, count), count, n - 1);
    }
  }

  /** Holding ArrowUp walks n rows up and then stays on the first row. */
  lemma {:induction false} UpTimesClamps(selected: int, n: nat)
    requires selected >= 0
    ensures UpTimes(selected, n) == if selected - n > 0 then selected - n else 0
    decreases n
  {
    if n > 0 {
      UpTimesClamps(ArrowUpIndex(selected), n - 1);
    }
  }

  /** Away from the last row, ArrowUp undoes ArrowDown; away from the first, ArrowDown undoes ArrowUp. */
  lemma UpUndoesDown(selected: int, count: nat)
    ensures 0 <= selected < count - 1 ==> ArrowUpIndex(ArrowDownIndex(selected, count)) == selected
    ensures 0 < selected < count ==> ArrowDownIndex(ArrowUpIndex(selected), count) == selected
  {
  }

  // ---------------------------------------------------------------------------
  // The dialog
  // ---------------------------------------------------------------------------

  class Dialog {
    var isOpen: bool
    var query: string
    var results: seq<SearchDocument>
    var selectedIndex: int
    /** The engine's ranked documents for a query. */
    const rank: string -> seq<SearchDocument>

    /**
     * The results are those of the query, and the highlight is a row when
     * there are rows; with none it may be -1, after ArrowDown.
     */
    ghost predicate Valid()
      reads this
    {
      results == ResultsFor(rank(query), query)
      && selectedIndex >= -1
      && (|results| > 0 ==> selectedIndex < |results|)
    }

    constructor(rank: string -> seq<SearchDocument>)
      ensures Valid()
      ensures !isOpen && query == "" && results == [] && selectedIndex == 0 && this.rank == rank
    {
      isOpen := false;
      query := "";
      results := [];
      selectedIndex := 0;
      this.rank := rank;
    }

    /**
     * Opening the dialog: the reset runs when `isOpen` changes, so a closed
     * dialog opens with the query, the results and the highlight cleared, and
     * an open one keeps them.
     */
    method Open()
      requires Valid()
      modifies this
      ensures Valid()
      ensures isOpen
      ensures !old(isOpen) ==> query == "" && results == [] && selectedIndex == 0
      ensures old(isOpen) ==> query == old(query) && results == old(results) && selectedIndex == old(selectedIndex)
    {
      if !isOpen {
        isOpen := true;
        query := "";
        results := [];
        selectedIndex := 0;
      }
    }

    /**
     * Typing: a blank query empties the results and leaves the highlight;
     * any other shows the engine's first eight and highlights the first.
     */
    method SetQuery(q: string)
      requires Valid()
      modifies this
      ensures Valid()
      ensures query == q && results == ResultsFor(rank(q), q) && isOpen == old(isOpen)
      ensures selectedIndex == if Blank(q) then old(selectedIndex) else 0
    {
      query := q;
      var blank := IsBlank(q);
      if blank {
        results := [];
      } else {
        var ranked := rank(q);
        results := if |ranked| <= MaxResults then ranked else ranked[..MaxResults];
        selectedIndex := 0;
      }
    }

    /**
     * A key press: the arrows move the highlight, Enter goes to the
     * highlighted result and closes when there is one, Escape closes, any
     * other key does nothing. The query and results stay.
     */
    method KeyDown(key: Key) returns (navigateTo: Option<string>)
      requires Valid()
      modifies this
      ensures Valid()
      ensures query == old(query) && results == old(results)
      ensures key.ArrowDown? ==> navigateTo.None? && isOpen == old(isOpen)
                                 && selectedIndex == ArrowDownIndex(old(selectedIndex), |results|)
      ensures key.ArrowUp? ==> navigateTo.None? && isOpen == old(isOpen)
                               && selectedIndex == ArrowUpIndex(old(selectedIndex))
      ensures key.Enter? ==> selectedIndex == old(selectedIndex)
                             && match Selected(results, selectedIndex)
                                case None => navigateTo.None? && isOpen == old(isOpen)
                                case Some(doc) => navigateTo == Some(Target(doc.slug)) && !isOpen
      ensures key.Escape? ==> navigateTo.None? && !isOpen && selectedIndex == old(selectedIndex)
      ensures key.OtherKey? ==> navigateTo.None? && isOpen == old(isOpen) && selectedIndex == old(selectedIndex)
    {
      navigateTo := None;
      match key {
        case ArrowDown =>
          var last := |results| - 1;
          selectedIndex := if selectedIndex + 1 < last then selectedIndex + 1 else last;
        case ArrowUp =>
          selectedIndex := if selectedIndex - 1 > 0 then selectedIndex - 1 else 0;
        case Enter =>
          if 0 <= selectedIndex < |results| {
            var slug := results[selectedIndex].slug;
            navigateTo := Some("/docs" + (if slug != "" then "/" + slug else ""));
            isOpen := false;
          }
        case Escape =>
          isOpen := false;
        case OtherKey(_) =>
      }
    }

    /** Pointing at a row highlights it. */
    method Hover(index: int)
      requires Valid() && 0 <= index < |results|
      modifies this
      ensures Valid()
      ensures selectedIndex == index && query == old(query) && results == old(results) && isOpen == old(isOpen)
    {
      selectedIndex := index;
    }

    /** Clicking a row goes to that result and closes. */
    method Click(index: int) returns (navigateTo: string)
      requires Valid() && 0 <= index < |results|
      modifies this
      ensures Valid()
      ensures query == old(query) && results == old(results) && selectedIndex == old(selectedIndex)
      ensures navigateTo == Target(results[index].slug) && !isOpen
    {
      var slug := results[index].slug;
      navigateTo := "/docs" + (if slug != "" then "/" + slug else "");
      isOpen := false;
    }

    /** A click on the backdrop itself closes; a click inside the panel does not. */
    method BackdropClick(onBackdrop: bool)
      requires Valid()
      modifies this
      ensures Valid()
      ensures query == old(query) && results == old(results) && selectedIndex == old(selectedIndex)
      ensures isOpen == (old(isOpen) && !onBackdrop)
    {
      if onBackdrop {
        isOpen := false;
      }
    }
  }

  /** With no rows, ArrowDown leaves the highlight at -1 and Enter then goes nowhere. */
  lemma NoRowsNoNavigation(selected: int)
    requires selected >= -1
    ensures ArrowDownIndex(selected, 0) == -1
    ensures Selected([], ArrowDownIndex(selected, 0)).None?
  {
  }
}
