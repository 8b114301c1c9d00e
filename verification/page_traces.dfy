/** Runs of the mod list page: any interleaving of search calls, search
    completions and version loads, applied one after another. Completions
    are not matched to the search that caused them, because the page does
    not match them either: whichever completion arrives is applied. */
module PageTraces {
  import opened Optional
  import opened SearchPage

  /** Something that happens to the page on the UI thread. */
  datatype Event<T> = Search(args: SearchArgs) | Completion(outcome: Outcome<T>) | Load(selected: ProfileVersion)

  /** Whether event `i` is a failed completion. */
  predicate FailureAt<T>(events: seq<Event<T>>, i: int)
    requires 0 <= i < |events|
  {
    events[i].Completion? && events[i].outcome.Failed?
  }

  /** Whether no event at index `from` or later is a version load. */
  ghost predicate NoLoadFrom<T>(events: seq<Event<T>>, from: int) {
    forall j :: from <= j < |events| && 0 <= j ==> !events[j].Load?
  }

  /** Whether some event is a version load. */
  ghost predicate HasLoad<T>(events: seq<Event<T>>) {
    exists i :: 0 <= i < |events| && events[i].Load?
  }

  /** What the page looks like after a run, the queries it sent, in order,
      and how many of them were the initial search of `loadVersion`. */
  datatype RunResult<T> = RunResult(page: Page<T>, queries: seq<Query>, initialSearches: nat)

  /** Applies one event. */
  function Step<T>(page: Page<T>, event: Event<T>, jar: JarVersion): (Page<T>, Option<Query>) {
    match event
    case Search(args) => Issue(page, args, jar)
    case Completion(outcome) => (Complete(page, outcome), None)
    case Load(selected) => LoadVersion(page, selected, jar)
  }

  /** Applies the events in order. */
  function Run<T>(page: Page<T>, events: seq<Event<T>>, jar: JarVersion): (r: RunResult<T>)
    decreases |events|
  {
    if events == [] then RunResult(page, [], 0)
    else
      var (next, query) := Step(page, events[0], jar);
      var rest := Run(next, events[1..], jar);
      var initial := if events[0].Load? && query.Some? then 1 else 0;
      RunResult(rest.page, (if query.Some? then [query.value] else []) + rest.queries, initial + rest.initialSearches)
  }

  /** The items a page shows after `events`, judged from the end: the
      entries of the last successful completion, or `initial` when no
      completion succeeded. */
  function LatestEntries<T>(events: seq<Event<T>>, initial: seq<T>): seq<T>
    decreases |events|
  {
    if events == [] then initial
    else
      var last := events[|events| - 1];
      if last.Completion? && last.outcome.Succeeded? then last.outcome.entries
      else LatestEntries(events[..|events| - 1], initial)
  }

  /** Whether the page should show a failure after `events` starting from a
      page whose flag was `failed0`: some completion failed and no version was
      loaded after it, or the flag was already set and no version was loaded
      at all. */
  ghost predicate FailedSinceLoad<T>(failed0: bool, events: seq<Event<T>>) {
    || (failed0 && NoLoadFrom(events, 0))
    || exists i :: 0 <= i < |events| && FailureAt(events, i) && NoLoadFrom(events, i + 1)
  }

  /** Running one more event is running the events, then that event. */
  lemma {:induction false} RunSnoc<T>(page: Page<T>, events: seq<Event<T>>, event: Event<T>, jar: JarVersion)
    ensures Run(page, events + [event], jar).page == Step(Run(page, events, jar).page, event, jar).0
    decreases |events|
  {
    if events == [] {
      assert events + [event] == [event];
      assert [event][1..] == [];
    } else {
      var next := Step(page, events[0], jar).0;
      assert (events + [event])[0] == events[0];
      assert (events + [event])[1..] == events[1..] + [event];
      RunSnoc(next, events[1..], event, jar);
    }
  }

  /** The section (mods or modpacks) is fixed for the page's lifetime, and
      every query sent during a run is for that section. */
  lemma {:induction false} QueriesUsePageSection<T>(page: Page<T>, events: seq<Event<T>>, jar: JarVersion)
    ensures Run(page, events, jar).page.section == page.section
    ensures forall q :: q in Run(page, events, jar).queries ==> q.section == page.section
    decreases |events|
  {
    if events != [] {
      QueriesUsePageSection(Step(page, events[0], jar).0, events[1..], jar);
    }
  }

  /** The page lists exactly the entries of the most recent successful
      completion, in the order returned, whatever searches, loads or failed
      completions came between; with no successful completion it keeps its
      items. */
  lemma {:induction false} ItemsAreLatestSuccess<T>(page: Page<T>, events: seq<Event<T>>, jar: JarVersion)
    ensures Run(page, events, jar).page.items == LatestEntries(events, page.items)
    decreases |events|
  {
    if events != [] {
      var n := |events| - 1;
      var prefix := events[..n];
      assert prefix + [events[n]] == events;
      RunSnoc(page, prefix, events[n], jar);
      ItemsAreLatestSuccess(page, prefix, jar);
    }
  }

  /** A shown failure stays shown: successes, failures and new searches
      never clear `failed`; only loading a version does. */
  lemma {:induction false} FailedStaysUntilLoad<T>(page: Page<T>, events: seq<Event<T>>, jar: JarVersion)
    requires page.failed
    requires NoLoadFrom(events, 0)
    ensures Run(page, events, jar).page.failed
    decreases |events|
  {
    if events != [] {
      assert !events[0].Load?;
      FailedStaysUntilLoad(Step(page, events[0], jar).0, events[1..], jar);
    }
  }

  /** The page shows a failure exactly when a completion failed after the
      last version load, or when it already showed one and no version was
      loaded since. */
  lemma {:induction false} FailedExactly<T>(page: Page<T>, events: seq<Event<T>>, jar: JarVersion)
    ensures Run(page, events, jar).page.failed <==> FailedSinceLoad(page.failed, events)
    decreases |events|
  {
    if events != [] {
      var n := |events| - 1;
      var prefix := events[..n];
      var last := events[n];
      assert prefix + [last] == events;
      RunSnoc(page, prefix, last, jar);
      FailedExactly(page, prefix, jar);
      var before := Run(page, prefix, jar).page;
      if last.Load? {
        assert !NoLoadFrom(events, 0) by { assert events[n].Load?; }
        forall i | 0 <= i < |events| && FailureAt(events, i)
          ensures !NoLoadFrom(events, i + 1)
        {
          assert events[n].Load?;
        }
      } else if last.Completion? && last.outcome.Failed? {
        assert FailureAt(events, n) && NoLoadFrom(events, n + 1);
      } else {
        assert Step(before, last, jar).0.failed == before.failed;
        if FailedSinceLoad(page.failed, prefix) {
          if page.failed && NoLoadFrom(prefix, 0) {
            assert NoLoadFrom(events, 0);
          } else {
            var i :| 0 <= i < |prefix| && FailureAt(prefix, i) && NoLoadFrom(prefix, i + 1);
            assert FailureAt(events, i) && NoLoadFrom(events, i + 1);
          }
        }
        if FailedSinceLoad(page.failed, events) {
          if page.failed && NoLoadFrom(events, 0) {
            assert NoLoadFrom(prefix, 0);
          } else {
            var i :| 0 <= i < |events| && FailureAt(events, i) && NoLoadFrom(events, i + 1);
            assert i < n;
            assert FailureAt(prefix, i) && NoLoadFrom(prefix, i + 1);
          }
        }
      }
    }
  }

  /** `loadVersion` searches at most once over the page's lifetime: a run
      contains one initial search exactly when the page had not searched yet
      and some version is loaded, and afterwards the page remembers it. */
  lemma {:induction false} InitialSearchOnce<T>(page: Page<T>, events: seq<Event<T>>, jar: JarVersion)
    ensures Run(page, events, jar).initialSearches == (if !page.searchInitialized && HasLoad(events) then 1 else 0)
    ensures Run(page, events, jar).page.searchInitialized <==> page.searchInitialized || HasLoad(events)
    decreases |events|
  {
    if events != [] {
      var next := Step(page, events[0], jar).0;
      var rest := events[1..];
      InitialSearchOnce(next, rest, jar);
      if events[0].Load? {
        assert HasLoad(events);
      } else {
        assert next.searchInitialized == page.searchInitialized;
        if HasLoad(events) {
          var i :| 0 <= i < |events| && events[i].Load?;
          assert rest[i - 1].Load?;
        }
        if HasLoad(rest) {
          var i :| 0 <= i < |rest| && rest[i].Load?;
          assert events[i + 1].Load?;
        }
      }
    }
  }

  /** After any run, the page is loading exactly when the last event was a
      search, or a version load that fired the initial search; a completion
      or a later version load leaves it idle. */
  lemma LoadingAfterRun<T>(page: Page<T>, events: seq<Event<T>>, event: Event<T>, jar: JarVersion)
    ensures Run(page, events + [event], jar).page.loading <==>
              event.Search? || (event.Load? && !Run(page, events, jar).page.searchInitialized)
  {
    RunSnoc(page, events, event, jar);
  }

  /** A freshly built page starts idle; it shows a failure after a run
      exactly when some completion failed after the last version load, and it
      lists the entries of the last successful completion, or nothing. */
  lemma FreshPageRun<T>(section: int, events: seq<Event<T>>, jar: JarVersion)
    ensures Run(NewPage<T>(section), events, jar).page.failed <==>
              exists i :: 0 <= i < |events| && FailureAt(events, i) && NoLoadFrom(events, i + 1)
    ensures Run(NewPage<T>(section), events, jar).page.items == LatestEntries(events, [])
    ensures Run(NewPage<T>(section), events, jar).initialSearches == (if HasLoad(events) then 1 else 0)
  {
    FailedExactly(NewPage<T>(section), events, jar);
    ItemsAreLatestSuccess(NewPage<T>(section), events, jar);
    InitialSearchOnce(NewPage<T>(section), events, jar);
  }

  /** How many search calls in a run were made while a version was
      selected, that is, how many of them reached the catalog. */
  function SearchesWithVersion<T>(page: Page<T>, events: seq<Event<T>>, jar: JarVersion): nat
    decreases |events|
  {
    if events == [] then 0
    else
      (if events[0].Search? && page.version.Some? then 1 else 0)
      + SearchesWithVersion(Step(page, events[0], jar).0, events[1..], jar)
  }

  /** Whether a query carries the filters of the given search arguments. */
  predicate CarriesArgs(q: Query, args: SearchArgs) {
    q.category == args.category && q.pageOffset == args.pageOffset
    && q.searchFilter == args.searchFilter && q.sort == args.sort
  }

  /** A run sends one query per search made with a version selected, plus
      the initial search of the first version load, and no others. */
  lemma {:induction false} QueryCount<T>(page: Page<T>, events: seq<Event<T>>, jar: JarVersion)
    ensures |Run(page, events, jar).queries| == SearchesWithVersion(page, events, jar) + Run(page, events, jar).initialSearches
    decreases |events|
  {
    if events != [] {
      QueryCount(Step(page, events[0], jar).0, events[1..], jar);
    }
  }

  /** Every query a run sends carries the category, page offset, name filter
      and sort of one of the run's search calls, or those of the initial
      search ("", 0, 0, "", 0). */
  lemma {:induction false} QueriesCarryArgs<T>(page: Page<T>, events: seq<Event<T>>, jar: JarVersion)
    ensures forall q :: q in Run(page, events, jar).queries ==>
              CarriesArgs(q, InitialSearch)
              || exists i :: 0 <= i < |events| && events[i].Search? && CarriesArgs(q, events[i].args)
    decreases |events|
  {
    if events != [] {
      var step := Step(page, events[0], jar);
      var rest := events[1..];
      QueriesCarryArgs(step.0, rest, jar);
      forall q | q in Run(page, events, jar).queries
        ensures CarriesArgs(q, InitialSearch)
                || exists i :: 0 <= i < |events| && events[i].Search? && CarriesArgs(q, events[i].args)
      {
        if q in Run(step.0, rest, jar).queries {
          if !CarriesArgs(q, InitialSearch) {
            var i :| 0 <= i < |rest| && rest[i].Search? && CarriesArgs(q, rest[i].args);
            assert events[i + 1] == rest[i];
          }
        } else {
          assert step.1 == Some(q);
          if events[0].Search? {
            assert CarriesArgs(q, events[0].args);
          }
        }
      }
    }
  }
}
