/** `iteratePages`: cursor pagination that stops at a repeated cursor. */
module IteratePages {
  import opened Wrappers
  import opened Sets

  type Cursor = string

  datatype Page<T> = Page(value: T, nextCursor: Option<Cursor>)
  datatype ReadResult<T> = Modified(page: Page<T>) | NotModified | Fails

  /** How an iteration ends; `Left` if the consumer stops after a page. */
  datatype Exit = LastPage | Unmodified | Failed | Repeated | Left
  datatype Options<O> = Options(cursor: Option<Cursor>, others: O)

  /** The options of every load are the first ones, with the cursor of the page before. */
  ghost predicate Chained<T, O>(firstOptions: Options<O>, loads: seq<Options<O>>, pages: seq<Page<T>>) {
    && |loads| > 0 && loads[0] == firstOptions && |loads| - 1 <= |pages| <= |loads|
    && forall i :: 0 < i < |loads| ==> loads[i] == firstOptions.(cursor := pages[i - 1].nextCursor)
  }

  /** The pages are the modified answers, in load order. */
  ghost predicate Answered<T, O>(load: (nat, Options<O>) -> ReadResult<T>, loads: seq<Options<O>>,
                                 pages: seq<Page<T>>) {
    |pages| <= |loads| && forall i :: 0 <= i < |pages| ==> load(i, loads[i]) == Modified(pages[i])
  }

  ghost predicate DistinctCursors<O>(loads: seq<Options<O>>) {
    forall i, j :: 0 <= i < j < |loads| ==> loads[i].cursor != loads[j].cursor
  }

  /** `seen` holds the cursors of the loads. */
  ghost predicate Remembers<O>(seen: set<Cursor>, loads: seq<Options<O>>) {
    && (forall i :: 0 <= i < |loads| && loads[i].cursor.Some? ==> loads[i].cursor.value in seen)
    && (forall c <- seen :: Loaded(loads, c))
  }

  ghost predicate Loaded<O>(loads: seq<Options<O>>, cursor: Cursor) {
    exists i :: 0 <= i < |loads| && loads[i].cursor == Some(cursor)
  }

  /** Every cursor that the server gives is one of `cursors`. */
  ghost predicate DrawsFrom<T, O(!new)>(load: (nat, Options<O>) -> ReadResult<T>, cursors: set<Cursor>) {
    forall n, o :: load(n, o).Modified? && load(n, o).page.nextCursor.Some? ==>
           load(n, o).page.nextCursor.value in cursors
  }

  lemma Drawn<T, O(!new)>(load: (nat, Options<O>) -> ReadResult<T>, cursors: set<Cursor>, n: nat, o: Options<O>)
    requires DrawsFrom(load, cursors)
    ensures load(n, o).Modified? && load(n, o).page.nextCursor.Some? ==> load(n, o).page.nextCursor.value in cursors
  {
  }

  // The next load, for a cursor that has not been seen.
  lemma NextLoad<T, O>(firstOptions: Options<O>, loads: seq<Options<O>>, pages: seq<Page<T>>, seen: set<Cursor>,
                       cursor: Cursor)
    requires Chained(firstOptions, loads, pages) && |pages| == |loads| && pages[|pages| - 1].nextCursor == Some(cursor)
    requires DistinctCursors(loads) && Remembers(seen, loads) && cursor !in seen
    ensures var more := loads + [firstOptions.(cursor := Some(cursor))];
            && Chained(firstOptions, more, pages) && DistinctCursors(more) && Remembers(seen + {cursor}, more)
  {
    var more := loads + [firstOptions.(cursor := Some(cursor))];
    forall c | c in seen + {cursor} ensures Loaded(more, c) {
      if c == cursor {
        assert more[|loads|].cursor == Some(c);
      } else {
        var i :| 0 <= i < |loads| && loads[i].cursor == Some(c);
        assert more[i].cursor == Some(c);
      }
    }
  }

  lemma NextPage<T, O>(load: (nat, Options<O>) -> ReadResult<T>, firstOptions: Options<O>, loads: seq<Options<O>>,
                       pages: seq<Page<T>>, page: Page<T>)
    requires Chained(firstOptions, loads, pages) && |pages| == |loads| - 1
    requires Answered(load, loads, pages) && load(|pages|, loads[|pages|]) == Modified(page)
    ensures Chained(firstOptions, loads, pages + [page]) && Answered(load, loads, pages + [page])
  {
  }

  /** The consumer stops after none of the first pages before the n-th. */
  ghost predicate Stays(leaves: nat -> bool, n: nat) {
    forall k :: 0 < k < n ==> !leaves(k)
  }

  lemma StaysNext(leaves: nat -> bool, n: nat)
    ensures n == 0 || (Stays(leaves, n) && !leaves(n)) ==> Stays(leaves, n + 1)
    ensures Stays(leaves, n + 1) ==> Stays(leaves, n)
  {
  }

  /** What holds before each load: all pages but the one it may bring are there, and `followed` are their cursors. */
  ghost predicate Underway<T, O>(load: (nat, Options<O>) -> ReadResult<T>, leaves: nat -> bool, cursors: set<Cursor>,
                                 firstOptions: Options<O>, loads: seq<Options<O>>, pages: seq<Page<T>>,
                                 seen: set<Cursor>, followed: set<Cursor>) {
    && |loads| == |pages| + 1
    && Chained(firstOptions, loads, pages) && Answered(load, loads, pages)
    && DistinctCursors(loads) && Remembers(seen, loads)
    && followed <= seen && followed <= cursors && |followed| == |pages|
    && Stays(leaves, |pages| + 1)
  }

  lemma Begins<T, O>(load: (nat, Options<O>) -> ReadResult<T>, leaves: nat -> bool, cursors: set<Cursor>,
                     firstOptions: Options<O>, seen: set<Cursor>)
    requires seen == if firstOptions.cursor.Some? then {firstOptions.cursor.value} else {}
    ensures Underway(load, leaves, cursors, firstOptions, [firstOptions], [], seen, {})
  {
    FirstLoad(load, firstOptions, seen);
    StaysNext(leaves, 0);
  }

  // Where an iteration may end: before or after the page that the load brings.
  lemma MayEnd<T, O>(load: (nat, Options<O>) -> ReadResult<T>, leaves: nat -> bool, cursors: set<Cursor>,
                     firstOptions: Options<O>, loads: seq<Options<O>>, pages: seq<Page<T>>, seen: set<Cursor>,
                     followed: set<Cursor>)
    requires Underway(load, leaves, cursors, firstOptions, loads, pages, seen, followed)
    ensures |loads| == |pages| + 1 && |loads| <= |cursors| + 1 && followed <= cursors
    ensures Chained(firstOptions, loads, pages) && Answered(load, loads, pages) && DistinctCursors(loads)
    ensures Stays(leaves, |pages|) && Stays(leaves, |pages| + 1)
    ensures match load(|pages|, loads[|pages|])
            case Modified(page) =>
              && Chained(firstOptions, loads, pages + [page]) && Answered(load, loads, pages + [page])
              && (page.nextCursor.Some? && page.nextCursor.value in seen ==> Loaded(loads, page.nextCursor.value))
            case _ => true
  {
    AtMost(followed, cursors);
    StaysNext(leaves, |pages|);
    hide Chained, Answered, DistinctCursors, Remembers, Stays, Loaded;
    var result := load(|pages|, loads[|pages|]);
    if result.Modified? {
      NextPage(load, firstOptions, loads, pages, result.page);
      var cursor := result.page.nextCursor;
      if cursor.Some? && cursor.value in seen { Remembered(seen, loads, cursor.value); }
    }
  }

  // The next load.
  lemma GoesOn<T, O>(load: (nat, Options<O>) -> ReadResult<T>, leaves: nat -> bool, cursors: set<Cursor>,
                     firstOptions: Options<O>, loads: seq<Options<O>>, pages: seq<Page<T>>, seen: set<Cursor>,
                     followed: set<Cursor>, page: Page<T>)
    requires Underway(load, leaves, cursors, firstOptions, loads, pages, seen, followed)
    requires load(|pages|, loads[|pages|]) == Modified(page) && !leaves(|pages| + 1)
    requires page.nextCursor.Some? && page.nextCursor.value !in seen && page.nextCursor.value in cursors
    ensures var cursor := page.nextCursor;
            Underway(load, leaves, cursors, firstOptions, loads + [firstOptions.(cursor := cursor)], pages + [page],
                     seen + {cursor.value}, followed + {cursor.value})
  {
    hide Chained, Answered, DistinctCursors, Remembers, Stays, Loaded;
    var more, cursor := pages + [page], page.nextCursor;
    NextPage(load, firstOptions, loads, pages, page);
    NextLoad(firstOptions, loads, more, seen, cursor.value);
    NextAnswer(load, loads, more, firstOptions.(cursor := cursor));
    StaysNext(leaves, |pages| + 1);
  }

  // The options of the current load are the first ones but for the cursor.
  lemma OnlyTheCursor<T, O>(firstOptions: Options<O>, loads: seq<Options<O>>, pages: seq<Page<T>>)
    requires Chained(firstOptions, loads, pages) && |loads| == |pages| + 1
    ensures loads[|pages|] == firstOptions.(cursor := loads[|pages|].cursor)
  {
  }

  /**
   The loads of one iteration and the pages it yields. `load` answers the n-th call, so that it stands for any server;
   its cursors come from the finite set `cursors`. The consumer stops after the pages that `leaves` names. No cursor is
   loaded twice, so there is at most one load more than there are cursors.
   */
  method Iterate<T, O(!new)>(load: (nat, Options<O>) -> ReadResult<T>, leaves: nat -> bool, firstOptions: Options<O>,
                             ghost cursors: set<Cursor>)
    returns (loads: seq<Options<O>>, pages: seq<Page<T>>, exit: Exit)
    requires DrawsFrom(load, cursors)
    // The options of every load are the first ones, with the cursor of the page before; no cursor is loaded twice.
    ensures |loads| > 0 && loads[0] == firstOptions && |loads| - 1 <= |pages| <= |loads| <= |cursors| + 1
    ensures forall i :: 0 < i < |loads| ==> loads[i] == firstOptions.(cursor := pages[i - 1].nextCursor)
    ensures forall i, j :: 0 <= i < j < |loads| ==> loads[i].cursor != loads[j].cursor
    // The pages are the modified answers, and the consumer has come back after all but perhaps the last.
    ensures forall i :: 0 <= i < |pages| ==> load(i, loads[i]) == Modified(pages[i])
    ensures forall k :: 0 < k < |pages| ==> !leaves(k)
    ensures match load(|loads| - 1, loads[|loads| - 1])
            case NotModified => exit == Unmodified && |pages| == |loads| - 1
            case Fails => exit == Failed && |pages| == |loads| - 1
            case Modified(page) =>
              && |pages| == |loads|
              && if leaves(|pages|) then exit == Left
                 else if page.nextCursor.None? then exit == LastPage
                 else exit == Repeated && exists i :: 0 <= i < |loads| && loads[i].cursor == page.nextCursor
  {
    hide *;
    var options := firstOptions;
    var seen: set<Cursor> := {};
    if options.cursor.Some? { seen := {options.cursor.value}; }
    loads, pages := [options], [];
    Begins(load, leaves, cursors, firstOptions, seen);
    ghost var followed: set<Cursor> := {};
    while true
      invariant Underway(load, leaves, cursors, firstOptions, loads, pages, seen, followed)
      invariant |loads| == |pages| + 1 && options == loads[|pages|] && followed <= cursors && followed <= seen
      decreases cursors - followed
    {
      MayEnd(load, leaves, cursors, firstOptions, loads, pages, seen, followed);
      OnlyTheCursor(firstOptions, loads, pages);
      Drawn(load, cursors, |pages|, options);
      InFull(load, leaves, firstOptions, loads, pages);
      var result := load(|pages|, options);
      if result.Fails? { return loads, pages, Failed; }
      if result.NotModified? { return loads, pages, Unmodified; }
      ghost var before := pages;
      pages := pages + [result.page];
      InFull(load, leaves, firstOptions, loads, pages);
      if leaves(|pages|) { return loads, pages, Left; }
      var cursor := result.page.nextCursor;
      if cursor.None? { return loads, pages, LastPage; }
      if cursor.value in seen {
        IsLoaded(loads, cursor.value);
        return loads, pages, Repeated;
      }
      GoesOn(load, leaves, cursors, firstOptions, loads, before, seen, followed, result.page);
      seen := seen + {cursor.value};
      followed := followed + {cursor.value};
      options := options.(cursor := cursor);
      loads := loads + [options];
    }
  }

  // What the predicates say of loads and pages.
  lemma InFull<T, O>(load: (nat, Options<O>) -> ReadResult<T>, leaves: nat -> bool, firstOptions: Options<O>,
                     loads: seq<Options<O>>, pages: seq<Page<T>>)
    requires Chained(firstOptions, loads, pages) && Answered(load, loads, pages) && DistinctCursors(loads)
    requires Stays(leaves, |pages|)
    ensures |loads| > 0 && loads[0] == firstOptions && |loads| - 1 <= |pages| <= |loads|
    ensures forall i :: 0 < i < |loads| ==> loads[i] == firstOptions.(cursor := pages[i - 1].nextCursor)
    ensures forall i, j :: 0 <= i < j < |loads| ==> loads[i].cursor != loads[j].cursor
    ensures forall i :: 0 <= i < |pages| ==> load(i, loads[i]) == Modified(pages[i])
    ensures forall k :: 0 < k < |pages| ==> !leaves(k)
  {
  }

  lemma IsLoaded<O>(loads: seq<Options<O>>, cursor: Cursor)
    requires Loaded(loads, cursor)
    ensures exists i :: 0 <= i < |loads| && loads[i].cursor == Some(cursor)
  {
  }

  lemma FirstLoad<T, O>(load: (nat, Options<O>) -> ReadResult<T>, firstOptions: Options<O>, seen: set<Cursor>)
    requires seen == if firstOptions.cursor.Some? then {firstOptions.cursor.value} else {}
    ensures var pages: seq<Page<T>> := [];
            && Chained(firstOptions, [firstOptions], pages) && Answered(load, [firstOptions], pages)
            && DistinctCursors([firstOptions]) && Remembers(seen, [firstOptions])
  {
    assert [firstOptions][0] == firstOptions;
  }

  lemma NextAnswer<T, O>(load: (nat, Options<O>) -> ReadResult<T>, loads: seq<Options<O>>, pages: seq<Page<T>>,
                         options: Options<O>)
    requires Answered(load, loads, pages)
    ensures Answered(load, loads + [options], pages)
  {
  }

  lemma Remembered<O>(seen: set<Cursor>, loads: seq<Options<O>>, cursor: Cursor)
    requires Remembers(seen, loads) && cursor in seen
    ensures Loaded(loads, cursor)
  {
  }
}
