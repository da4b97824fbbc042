/**
 * The Florida price-heatmap builder: filter the location records to the state "FL", look up
 * each store's menu file, search it for the Classic Luxe Box price, append one entry per
 * priced store, and summarise the prices.
 *
 * File system access is replaced by a map from menu-file path to what opening and decoding
 * that file gives; the lines the script prints and the file it writes become values of the
 * returned Run.
 */
module Heatmap {
  import opened Wrappers
  import Text
  import opened MenuSearch

  const Region: string := "FL"
  const OutputPath: string := "Data/florida_luxe_heatmap.json"

  /**
   * A record of the locations file. Each member is None when the key is absent. A list
   * element that is not a JSON object fails the `state` lookup exactly as a missing key
   * does, so it is modelled as a record whose `state` is None.
   */
  datatype Location = Location(
    storeNumber: Option<string>,
    state: Option<string>,
    lat: Option<real>,
    lng: Option<real>,
    county: Option<string>,
    url: Option<string>)

  /** What the script finds at a menu-file path: no file, a file `json.load` rejects, or a document. */
  datatype MenuFile = Absent | ParseFailure | Menu(doc: MenuJson)

  /** One point of the heatmap, with the members the script writes. */
  datatype Entry = Entry(storeNumber: string, lat: real, lng: real, price: real, county: string, url: string)

  /** Why a store was reported and skipped. */
  datatype Reason = Unparsable | SearchRaised(cause: Cause) | MissingKey(key: string)

  /** The lines the script prints, as values. */
  datatype LogLine =
    | FoundStores(count: nat)
    | StorePrice(storeNumber: string, price: real)
    | StoreError(menuFile: string, reason: Reason)
    | TotalPriced(count: nat)
    | PriceRange(low: real, high: real)
    | SavedTo(path: string)

  /** The KeyErrors raised outside the per-store `try`, which end the script. */
  datatype AbortCause = MissingState | MissingStoreNumber

  /**
   * A whole run. A completed run wrote `entries` to OutputPath; an aborted run wrote nothing
   * and printed `log` before it stopped.
   */
  datatype Run =
    | Completed(entries: seq<Entry>, range: Option<(real, real)>, log: seq<LogLine>)
    | Aborted(cause: AbortCause, log: seq<LogLine>)

  function MenuFilePath(storeNumber: string): string {
    "Menu/fl_" + storeNumber + "_menu.json"
  }

  /** `os.path.exists` is false for a path the map does not hold. */
  function LookupMenu(menus: map<string, MenuFile>, path: string): MenuFile {
    if path in menus then menus[path] else Absent
  }

  /** Distinct store numbers name distinct menu files, so the join on store number is exact. */
  lemma MenuFilePathInjective(a: string, b: string)
    requires MenuFilePath(a) == MenuFilePath(b)
    ensures a == b
  {
    var pa, pb := MenuFilePath(a), MenuFilePath(b);
    assert |a| == |b|;
    assert a == pa[8..8 + |a|];
    assert b == pb[8..8 + |b|];
  }

  // ---------------------------------------------------------------------------
  // The region filter (a list comprehension)

  /** `b` keeps some of the elements of `a`, in their order in `a`. */
  ghost predicate SubsequenceOf<T>(b: seq<T>, a: seq<T>)
    decreases |a|
  {
    if b == [] then true
    else if a == [] then false
    else (b[|b| - 1] == a[|a| - 1] && SubsequenceOf(b[..|b| - 1], a[..|a| - 1])) || SubsequenceOf(b, a[..|a| - 1])
  }

  /**
   * `[loc for loc in all_locations if loc['state'] == 'FL']`: None when some record has no
   * `state`, which raises a KeyError that nothing catches.
   */
  function FloridaLocations(all: seq<Location>): (r: Option<seq<Location>>)
    ensures r.None? <==> exists i :: 0 <= i < |all| && all[i].state.None?
    ensures r.Some? ==> forall l :: l in r.value <==> l in all && l.state == Some(Region)
    ensures r.Some? ==> SubsequenceOf(r.value, all)
    ensures r.Some? ==> forall l :: multiset(r.value)[l] == if l.state == Some(Region) then multiset(all)[l] else 0
  {
    if all == [] then Some([])
    else
      var last := all[|all| - 1];
      var front := FloridaLocations(all[..|all| - 1]);
      assert forall i :: 0 <= i < |all| - 1 ==> all[..|all| - 1][i] == all[i];
      assert all == all[..|all| - 1] + [last];
      assert multiset(all) == multiset(all[..|all| - 1]) + multiset{last};
      if front.None? || last.state.None? then None
      else if last.state == Some(Region) then
        assert (front.value + [last])[..|front.value|] == front.value;
        Some(front.value + [last])
      else front
  }

  // ---------------------------------------------------------------------------
  // One store

  /**
   * The first key the entry's dict literal looks up and does not find, in the literal's
   * order: `lat`, `lng`, `county`, `url`.
   */
  function MissingField(loc: Location): (r: Option<string>)
    ensures r.None? <==> loc.lat.Some? && loc.lng.Some? && loc.county.Some? && loc.url.Some?
  {
    if loc.lat.None? then Some("lat")
    else if loc.lng.None? then Some("lng")
    else if loc.county.None? then Some("county")
    else if loc.url.None? then Some("url")
    else None
  }

  /** What processing part of the store list produced; `aborted` means a KeyError escaped. */
  datatype Trace = Trace(entries: seq<Entry>, log: seq<LogLine>, aborted: bool)

  const Quiet := Trace([], [], false)

  /** One iteration of the store loop, as a specification. */
  function StoreStep(loc: Location, menus: map<string, MenuFile>): Trace {
    match loc.storeNumber
    case None => Trace([], [], true)
    case Some(sn) =>
      var path := MenuFilePath(sn);
      match LookupMenu(menus, path)
      case Absent => Quiet
      case ParseFailure => Trace([], [StoreError(path, Unparsable)], false)
      case Menu(doc) =>
        match MenuPrice(doc)
        case Unpriced => Quiet
        case Failed(c) => Trace([], [StoreError(path, SearchRaised(c))], false)
        case Priced(v) =>
          match MissingField(loc)
          case Some(key) => Trace([], [StoreError(path, MissingKey(key))], false)
          case None =>
            Trace([Entry(sn, loc.lat.value, loc.lng.value, v, loc.county.value, loc.url.value)], [StorePrice(sn, v)], false)
  }

  /** Running `u` after `t`: nothing runs after an escaped exception. */
  function Then(t: Trace, u: Trace): Trace {
    if t.aborted then t else Trace(t.entries + u.entries, t.log + u.log, u.aborted)
  }

  /** The store loop over `locs`, as a specification. */
  function ProcessStores(locs: seq<Location>, menus: map<string, MenuFile>): Trace
    decreases |locs|
  {
    if locs == [] then Quiet
    else Then(ProcessStores(locs[..|locs| - 1], menus), StoreStep(locs[|locs| - 1], menus))
  }

  lemma ThenAssociative(t: Trace, u: Trace, v: Trace)
    ensures Then(Then(t, u), v) == Then(t, Then(u, v))
  {
  }

  /**
   * The stores are processed independently: the trace of `a + b` is that of `a` followed by
   * that of `b`, unless a KeyError escaped while processing `a`.
   */
  lemma {:induction false} StoresAreIndependent(a: seq<Location>, b: seq<Location>, menus: map<string, MenuFile>)
    ensures ProcessStores(a + b, menus) == Then(ProcessStores(a, menus), ProcessStores(b, menus))
    decreases |b|
  {
    if b == [] {
      assert a + b == a;
    } else {
      var b', x := b[..|b| - 1], b[|b| - 1];
      assert (a + b)[..|a + b| - 1] == a + b';
      assert (a + b)[|a + b| - 1] == x;
      StoresAreIndependent(a, b', menus);
      ThenAssociative(ProcessStores(a, menus), ProcessStores(b', menus), StoreStep(x, menus));
    }
  }

  lemma StepExtendsPrefix(locs: seq<Location>, i: nat, menus: map<string, MenuFile>)
    requires i < |locs|
    ensures ProcessStores(locs[..i + 1], menus) == Then(ProcessStores(locs[..i], menus), StoreStep(locs[i], menus))
  {
    assert locs[..i + 1][..i] == locs[..i];
  }

  /** Once a KeyError escapes, the rest of the store list is never processed. */
  lemma AbortIsFinal(locs: seq<Location>, n: nat, menus: map<string, MenuFile>)
    requires n <= |locs| && ProcessStores(locs[..n], menus).aborted
    ensures ProcessStores(locs, menus) == ProcessStores(locs[..n], menus)
  {
    StoresAreIndependent(locs[..n], locs[n..], menus);
    assert locs[..n] + locs[n..] == locs;
  }

  // ---------------------------------------------------------------------------
  // The summary

  /** `[item['price'] for item in heatmap_data]` */
  function Prices(entries: seq<Entry>): (r: seq<real>)
    ensures |r| == |entries| && forall i :: 0 <= i < |r| ==> r[i] == entries[i].price
  {
    seq(|entries|, i requires 0 <= i < |entries| => entries[i].price)
  }

  /** Python's `min` on a non-empty list. */
  function MinOf(xs: seq<real>): (m: real)
    requires xs != []
    ensures m in xs && forall i :: 0 <= i < |xs| ==> m <= xs[i]
  {
    if |xs| == 1 then xs[0]
    else
      var rest := MinOf(xs[1..]);
      if xs[0] <= rest then xs[0] else rest
  }

  /** Python's `max` on a non-empty list. */
  function MaxOf(xs: seq<real>): (m: real)
    requires xs != []
    ensures m in xs && forall i :: 0 <= i < |xs| ==> xs[i] <= m
  {
    if |xs| == 1 then xs[0]
    else
      var rest := MaxOf(xs[1..]);
      if rest <= xs[0] then xs[0] else rest
  }

  /** The price range, computed only when there is at least one entry. */
  function Summary(entries: seq<Entry>): (r: Option<(real, real)>)
    ensures r.Some? <==> entries != []
    ensures r.Some? ==> forall i :: 0 <= i < |entries| ==> r.value.0 <= entries[i].price <= r.value.1
    ensures r.Some? ==> r.value.0 in Prices(entries) && r.value.1 in Prices(entries)
  {
    if entries == [] then None
    else
      var ps := Prices(entries);
      Some((MinOf(ps), MaxOf(ps)))
  }

  /** The lines printed after the loop. */
  function Epilogue(entries: seq<Entry>): seq<LogLine> {
    var range := Summary(entries);
    [TotalPriced(|entries|)]
    + (if range.Some? then [PriceRange(range.value.0, range.value.1)] else [])
    + [SavedTo(OutputPath)]
  }

  /** The whole script, as a specification. */
  function HeatmapRun(all: seq<Location>, menus: map<string, MenuFile>): Run {
    match FloridaLocations(all)
    case None => Aborted(MissingState, [])
    case Some(florida) =>
      var t := ProcessStores(florida, menus);
      var log := [FoundStores(|florida|)] + t.log;
      if t.aborted then Aborted(MissingStoreNumber, log)
      else Completed(t.entries, Summary(t.entries), log + Epilogue(t.entries))
  }

  // ---------------------------------------------------------------------------
  // The script

  /** The lines after the loop: the count, the price range only when there are entries, the save. */
  method Summarise(heatmap: seq<Entry>) returns (range: Option<(real, real)>, lines: seq<LogLine>)
    ensures range == Summary(heatmap) && lines == Epilogue(heatmap)
  {
    lines := [TotalPriced(|heatmap|)];
    range := None;
    if heatmap != [] {
      var prices := Prices(heatmap);
      range := Some((MinOf(prices), MaxOf(prices)));
      lines := lines + [PriceRange(range.value.0, range.value.1)];
    }
    lines := lines + [SavedTo(OutputPath)];
  }

  /**
   * One pass of the store loop for a store with a number: the existence check, then the
   * `try` block, whose exceptions become one error line naming the menu file.
   */
  method ProcessStore(location: Location, storeNumber: string, menus: map<string, MenuFile>) returns (step: Trace)
    requires location.storeNumber == Some(storeNumber)
    ensures step == StoreStep(location, menus)
  {
    step := Quiet;
    var menuFile := MenuFilePath(storeNumber);
    var file := LookupMenu(menus, menuFile);
    if !file.Absent? {
      if file.ParseFailure? {
        step := Trace([], [StoreError(menuFile, Unparsable)], false);
      } else {
        var found := FindClassicLuxePrice(file.doc);
        if found.Failed? {
          step := Trace([], [StoreError(menuFile, SearchRaised(found.cause))], false);
        } else if found.Priced? {
          var missing := MissingField(location);
          if missing.Some? {
            step := Trace([], [StoreError(menuFile, MissingKey(missing.value))], false);
          } else {
            var entry := Entry(storeNumber, location.lat.value, location.lng.value,
                               found.price, location.county.value, location.url.value);
            step := Trace([entry], [StorePrice(storeNumber, found.price)], false);
          }
        }
      }
    }
  }

  /** The script from the region filter to the save, with `heatmap_data` appended in a loop. */
  method BuildHeatmap(all: seq<Location>, menus: map<string, MenuFile>) returns (run: Run)
    ensures run == HeatmapRun(all, menus)
  {
    var filtered := FloridaLocations(all);
    if filtered.None? {
      return Aborted(MissingState, []);
    }
    var florida := filtered.value;
    var log := [FoundStores(|florida|)];
    var heatmap: seq<Entry> := [];
    for i := 0 to |florida|
      invariant !ProcessStores(florida[..i], menus).aborted
      invariant heatmap == ProcessStores(florida[..i], menus).entries
      invariant log == [FoundStores(|florida|)] + ProcessStores(florida[..i], menus).log
    {
      var location := florida[i];
      if location.storeNumber.None? {
        StoppedRun(all, florida, i, menus);
        return Aborted(MissingStoreNumber, log);
      }
      var step := ProcessStore(location, location.storeNumber.value, menus);
      LoopStep(florida, i, menus);
      Text.AppendAssoc([FoundStores(|florida|)], ProcessStores(florida[..i], menus).log, step.log);
      heatmap := heatmap + step.entries;
      log := log + step.log;
    }
    FinishedRun(all, florida, menus);
    var range, lines := Summarise(heatmap);
    run := Completed(heatmap, range, log + lines);
  }

  /** One more store with a number: its entries and log lines are appended, and nothing escapes. */
  lemma LoopStep(florida: seq<Location>, i: nat, menus: map<string, MenuFile>)
    requires i < |florida| && !ProcessStores(florida[..i], menus).aborted && florida[i].storeNumber.Some?
    ensures var t, u := ProcessStores(florida[..i], menus), StoreStep(florida[i], menus);
      ProcessStores(florida[..i + 1], menus) == Trace(t.entries + u.entries, t.log + u.log, false)
  {
    StepExtendsPrefix(florida, i, menus);
  }

  /** A store without a number: the KeyError ends the run with the lines printed so far. */
  lemma StoppedRun(all: seq<Location>, florida: seq<Location>, i: nat, menus: map<string, MenuFile>)
    requires FloridaLocations(all) == Some(florida)
    requires i < |florida| && !ProcessStores(florida[..i], menus).aborted && florida[i].storeNumber.None?
    ensures HeatmapRun(all, menus) ==
      Aborted(MissingStoreNumber, [FoundStores(|florida|)] + ProcessStores(florida[..i], menus).log)
  {
    StepExtendsPrefix(florida, i, menus);
    var t := ProcessStores(florida[..i], menus);
    assert t.log + [] == t.log;
    assert ProcessStores(florida[..i + 1], menus) == Trace(t.entries + [], t.log, true);
    AbortIsFinal(florida, i + 1, menus);
  }

  /** The loop ran over every store without a KeyError. */
  lemma FinishedRun(all: seq<Location>, florida: seq<Location>, menus: map<string, MenuFile>)
    requires FloridaLocations(all) == Some(florida)
    requires !ProcessStores(florida[..|florida|], menus).aborted
    ensures var t := ProcessStores(florida[..|florida|], menus);
      HeatmapRun(all, menus) == Completed(t.entries, Summary(t.entries), [FoundStores(|florida|)] + t.log + Epilogue(t.entries))
  {
    assert florida[..|florida|] == florida;
  }

  // ---------------------------------------------------------------------------
  // Properties of a run

  /**
   * `e` is the entry the script builds for `l`: a Florida location, its members copied, and
   * the price the search found in that store's menu file.
   */
  ghost predicate Built(l: Location, e: Entry, menus: map<string, MenuFile>) {
    var file := LookupMenu(menus, MenuFilePath(e.storeNumber));
    && l.state == Some(Region)
    && l.storeNumber == Some(e.storeNumber)
    && l.lat == Some(e.lat) && l.lng == Some(e.lng)
    && l.county == Some(e.county) && l.url == Some(e.url)
    && file.Menu? && MenuPrice(file.doc) == Priced(e.price)
  }

  /** Each of `es` is built from one of `ls`, with distinct locations and in the same order. */
  ghost predicate DrawnInOrder(es: seq<Entry>, ls: seq<Location>, menus: map<string, MenuFile>)
    decreases |ls|
  {
    if es == [] then true
    else if ls == [] then false
    else
      (Built(ls[|ls| - 1], es[|es| - 1], menus) && DrawnInOrder(es[..|es| - 1], ls[..|ls| - 1], menus))
      || DrawnInOrder(es, ls[..|ls| - 1], menus)
  }

  lemma StepEntryIsBuilt(l: Location, menus: map<string, MenuFile>)
    requires l.state == Some(Region)
    ensures |StoreStep(l, menus).entries| <= 1
    ensures forall e :: e in StoreStep(l, menus).entries ==> Built(l, e, menus)
  {
  }

  lemma {:induction false} ProcessedEntriesDrawnInOrder(ls: seq<Location>, menus: map<string, MenuFile>)
    requires forall l :: l in ls ==> l.state == Some(Region)
    ensures DrawnInOrder(ProcessStores(ls, menus).entries, ls, menus)
    decreases |ls|
  {
    if ls != [] {
      var front, x := ls[..|ls| - 1], ls[|ls| - 1];
      assert forall l :: l in front ==> l in ls;
      ProcessedEntriesDrawnInOrder(front, menus);
      var t, es := ProcessStores(front, menus), ProcessStores(ls, menus).entries;
      StepEntryIsBuilt(x, menus);
      if !t.aborted && StoreStep(x, menus).entries != [] {
        assert es[..|es| - 1] == t.entries;
        assert Built(x, es[|es| - 1], menus);
      } else {
        assert es == t.entries;
      }
    }
  }

  lemma {:induction false} DrawnThroughSubsequence(es: seq<Entry>, fl: seq<Location>, all: seq<Location>, menus: map<string, MenuFile>)
    requires DrawnInOrder(es, fl, menus) && SubsequenceOf(fl, all)
    ensures DrawnInOrder(es, all, menus)
    decreases |all|
  {
    if es != [] {
      assert fl != [] && all != [];
      var fl', all' := fl[..|fl| - 1], all[..|all| - 1];
      if SubsequenceOf(fl, all') {
        DrawnThroughSubsequence(es, fl, all', menus);
      } else if Built(fl[|fl| - 1], es[|es| - 1], menus) && DrawnInOrder(es[..|es| - 1], fl', menus) {
        DrawnThroughSubsequence(es[..|es| - 1], fl', all', menus);
      } else {
        DrawnThroughSubsequence(es, fl', all', menus);
      }
    }
  }

  /**
   * Every entry of a completed run comes from a location whose state is exactly "FL", copies
   * that location's members, carries the price found in that store's menu file, and the
   * entries keep the order of their locations.
   */
  lemma EntriesComeFromFloridaInOrder(all: seq<Location>, menus: map<string, MenuFile>)
    requires HeatmapRun(all, menus).Completed?
    ensures DrawnInOrder(HeatmapRun(all, menus).entries, all, menus)
  {
    var florida := FloridaLocations(all).value;
    ProcessedEntriesDrawnInOrder(florida, menus);
    DrawnThroughSubsequence(ProcessStores(florida, menus).entries, florida, all, menus);
  }

  /** A store whose menu file does not exist leaves no entry and no log line: the run is as if it were not there. */
  lemma AbsentMenuLeavesNoTrace(a: seq<Location>, l: Location, b: seq<Location>, menus: map<string, MenuFile>)
    requires l.storeNumber.Some? && LookupMenu(menus, MenuFilePath(l.storeNumber.value)) == Absent
    ensures ProcessStores(a + [l] + b, menus) == ProcessStores(a + b, menus)
  {
    StoresAreIndependent(a + [l], b, menus);
    StoresAreIndependent(a, [l], menus);
    StoresAreIndependent(a, b, menus);
    SingleStore(l, menus);
    var t := ProcessStores(a, menus);
    assert t.entries + [] == t.entries && t.log + [] == t.log;
  }

  /**
   * A store whose processing raises (an unreadable menu file, a search that trips over a
   * malformed document, a location without `lat`, `lng`, `county` or `url`) adds exactly one
   * log line naming its menu file and no entry, and the stores after it are processed as
   * if it had not been there.
   */
  lemma FailingStoreIsLoggedAndSkipped(a: seq<Location>, l: Location, b: seq<Location>, menus: map<string, MenuFile>, reason: Reason)
    requires l.storeNumber.Some?
    requires StoreStep(l, menus) == Trace([], [StoreError(MenuFilePath(l.storeNumber.value), reason)], false)
    requires !ProcessStores(a, menus).aborted
    ensures ProcessStores(a + [l] + b, menus) ==
      Then(Trace(ProcessStores(a, menus).entries, ProcessStores(a, menus).log + [StoreError(MenuFilePath(l.storeNumber.value), reason)], false),
           ProcessStores(b, menus))
  {
    StoresAreIndependent(a + [l], b, menus);
    StoresAreIndependent(a, [l], menus);
    SingleStore(l, menus);
    var t := ProcessStores(a, menus);
    assert t.entries + [] == t.entries;
  }

  /**
   * Every outcome of one store with a number: a missing file or a menu without the box adds
   * nothing; an unreadable file, a search that raises, or a priced store whose location lacks
   * a member of the entry adds exactly one error line naming the menu file and no entry; a
   * priced store with every member adds its entry and its price line. Nothing escapes.
   */
  lemma StoreStepReports(l: Location, menus: map<string, MenuFile>)
    requires l.storeNumber.Some?
    ensures var sn := l.storeNumber.value;
      var path := MenuFilePath(sn);
      var file := LookupMenu(menus, path);
      && (file == Absent ==> StoreStep(l, menus) == Quiet)
      && (file == ParseFailure ==> StoreStep(l, menus) == Trace([], [StoreError(path, Unparsable)], false))
      && (file.Menu? && MenuPrice(file.doc).Unpriced? ==> StoreStep(l, menus) == Quiet)
      && (file.Menu? && MenuPrice(file.doc).Failed? ==>
            StoreStep(l, menus) == Trace([], [StoreError(path, SearchRaised(MenuPrice(file.doc).cause))], false))
      && (file.Menu? && MenuPrice(file.doc).Priced? && MissingField(l).Some? ==>
            StoreStep(l, menus) == Trace([], [StoreError(path, MissingKey(MissingField(l).value))], false))
      && (file.Menu? && MenuPrice(file.doc).Priced? && MissingField(l).None? ==>
            var v := MenuPrice(file.doc).price;
            StoreStep(l, menus) ==
              Trace([Entry(sn, l.lat.value, l.lng.value, v, l.county.value, l.url.value)], [StorePrice(sn, v)], false))
  {
  }

  /**
   * A store with a number, a menu file whose search finds a price, and every member of the
   * entry adds its entry and its price line right after what the stores before it produced.
   */
  lemma PricedStoreIsAppended(a: seq<Location>, l: Location, b: seq<Location>, menus: map<string, MenuFile>)
    requires l.storeNumber.Some?
    requires LookupMenu(menus, MenuFilePath(l.storeNumber.value)).Menu?
    requires MenuPrice(LookupMenu(menus, MenuFilePath(l.storeNumber.value)).doc).Priced?
    requires MissingField(l).None?
    requires !ProcessStores(a, menus).aborted
    ensures var t, sn := ProcessStores(a, menus), l.storeNumber.value;
      var v := MenuPrice(LookupMenu(menus, MenuFilePath(sn)).doc).price;
      var e := Entry(sn, l.lat.value, l.lng.value, v, l.county.value, l.url.value);
      ProcessStores(a + [l] + b, menus) == Then(Trace(t.entries + [e], t.log + [StorePrice(sn, v)], false), ProcessStores(b, menus))
  {
    StoresAreIndependent(a + [l], b, menus);
    StoresAreIndependent(a, [l], menus);
    SingleStore(l, menus);
  }

  /** In a loop that does not abort, a priced store with every member of the entry has its entry. */
  lemma PricedStoreHasEntry(locs: seq<Location>, j: nat, menus: map<string, MenuFile>)
    requires !ProcessStores(locs, menus).aborted
    requires j < |locs| && locs[j].storeNumber.Some?
    requires LookupMenu(menus, MenuFilePath(locs[j].storeNumber.value)).Menu?
    requires MenuPrice(LookupMenu(menus, MenuFilePath(locs[j].storeNumber.value)).doc).Priced?
    requires MissingField(locs[j]).None?
    ensures var l := locs[j];
      var v := MenuPrice(LookupMenu(menus, MenuFilePath(l.storeNumber.value)).doc).price;
      Entry(l.storeNumber.value, l.lat.value, l.lng.value, v, l.county.value, l.url.value) in ProcessStores(locs, menus).entries
  {
    var front, back := locs[..j], locs[j + 1..];
    assert locs == front + [locs[j]] + back;
    if ProcessStores(front, menus).aborted {
      AbortIsFinal(locs, j, menus);
      assert false;
    }
    PricedStoreIsAppended(front, locs[j], back, menus);
  }

  /**
   * The converse of `EntriesComeFromFloridaInOrder`: in a completed run, every Florida store
   * with a number, a priced menu file and every member of the entry has its entry.
   */
  lemma PricedFloridaStoreHasEntry(all: seq<Location>, menus: map<string, MenuFile>, i: nat)
    requires HeatmapRun(all, menus).Completed?
    requires i < |all| && all[i].state == Some(Region) && all[i].storeNumber.Some?
    requires LookupMenu(menus, MenuFilePath(all[i].storeNumber.value)).Menu?
    requires MenuPrice(LookupMenu(menus, MenuFilePath(all[i].storeNumber.value)).doc).Priced?
    requires MissingField(all[i]).None?
    ensures var l := all[i];
      var v := MenuPrice(LookupMenu(menus, MenuFilePath(l.storeNumber.value)).doc).price;
      Entry(l.storeNumber.value, l.lat.value, l.lng.value, v, l.county.value, l.url.value) in HeatmapRun(all, menus).entries
  {
    var florida := FloridaLocations(all).value;
    assert all[i] in all;
    var j :| 0 <= j < |florida| && florida[j] == all[i];
    PricedStoreHasEntry(florida, j, menus);
  }

  /**
   * The summary of a completed run: the price range is present exactly when there is an
   * entry, bounds every price, and the log ends with the count, the range if any, and the save.
   */
  lemma CompletedRunSummary(all: seq<Location>, menus: map<string, MenuFile>)
    requires HeatmapRun(all, menus).Completed?
    ensures var run := HeatmapRun(all, menus);
      && (run.range.Some? <==> run.entries != [])
      && (run.range.Some? ==> forall i :: 0 <= i < |run.entries| ==> run.range.value.0 <= run.entries[i].price <= run.range.value.1)
      && (run.entries == [] ==> run.log[|run.log| - 2..] == [TotalPriced(0), SavedTo(OutputPath)])
  {
  }

  /** A location without `state` stops the run before anything is printed or written. */
  lemma MissingStateAborts(all: seq<Location>, menus: map<string, MenuFile>, i: nat)
    requires i < |all| && all[i].state.None?
    ensures HeatmapRun(all, menus) == Aborted(MissingState, [])
  {
  }

  /** The single-store scenario: one Florida store whose menu lists the box at "$5.00". */
  lemma SingleStoreScenario(loc: Location, doc: MenuJson, menus: map<string, MenuFile>)
    requires loc == Location(Some("100"), Some("FL"), Some(1.0), Some(2.0), Some("Dade"), Some("u"))
    requires doc == MenuObject(Some(CategoryMap([
      CategoryEntry("Boxes", ItemSeq([ItemObject(Some(Target), Some(PriceText("$5.00")))]))])))
    requires menus == map["Menu/fl_100_menu.json" := Menu(doc)]
    ensures HeatmapRun([loc], menus)
      == Completed([Entry("100", 1.0, 2.0, 5.0, "Dade", "u")], Some((5.0, 5.0)),
                   [FoundStores(1), StorePrice("100", 5.0), TotalPriced(1), PriceRange(5.0, 5.0), SavedTo(OutputPath)])
  {
    ScenarioMenuPrice(doc);
    PricedStoreRun(loc, doc, menus);
  }

  lemma PricedStoreRun(loc: Location, doc: MenuJson, menus: map<string, MenuFile>)
    requires loc == Location(Some("100"), Some("FL"), Some(1.0), Some(2.0), Some("Dade"), Some("u"))
    requires MenuPrice(doc) == Priced(5.0)
    requires menus == map["Menu/fl_100_menu.json" := Menu(doc)]
    ensures HeatmapRun([loc], menus)
      == Completed([Entry("100", 1.0, 2.0, 5.0, "Dade", "u")], Some((5.0, 5.0)),
                   [FoundStores(1), StorePrice("100", 5.0), TotalPriced(1), PriceRange(5.0, 5.0), SavedTo(OutputPath)])
  {
    var e := Entry("100", 1.0, 2.0, 5.0, "Dade", "u");
    ScenarioStep(loc, doc, menus);
    ScenarioFlorida(loc);
    SingleStore(loc, menus);
    ScenarioSummary(e);
    assert [FoundStores(1)] + [StorePrice("100", 5.0)] + [TotalPriced(1), PriceRange(5.0, 5.0), SavedTo(OutputPath)]
      == [FoundStores(1), StorePrice("100", 5.0), TotalPriced(1), PriceRange(5.0, 5.0), SavedTo(OutputPath)];
  }

  lemma ScenarioSummary(e: Entry)
    requires e.price == 5.0
    ensures Summary([e]) == Some((5.0, 5.0))
    ensures Epilogue([e]) == [TotalPriced(1), PriceRange(5.0, 5.0), SavedTo(OutputPath)]
  {
    assert Prices([e]) == [5.0];
  }

  lemma ScenarioFlorida(loc: Location)
    requires loc.state == Some(Region)
    ensures FloridaLocations([loc]) == Some([loc])
  {
    assert [loc][..0] == [];
  }

  /** A store list of one store: its trace is that store's step. */
  lemma SingleStore(l: Location, menus: map<string, MenuFile>)
    ensures ProcessStores([l], menus) == StoreStep(l, menus)
  {
    assert [l][..0] == [];
    var u := StoreStep(l, menus);
    assert [] + u.entries == u.entries && [] + u.log == u.log;
  }

  lemma ScenarioStep(loc: Location, doc: MenuJson, menus: map<string, MenuFile>)
    requires loc == Location(Some("100"), Some("FL"), Some(1.0), Some(2.0), Some("Dade"), Some("u"))
    requires MenuPrice(doc) == Priced(5.0)
    requires menus == map["Menu/fl_100_menu.json" := Menu(doc)]
    ensures StoreStep(loc, menus) == Trace([Entry("100", 1.0, 2.0, 5.0, "Dade", "u")], [StorePrice("100", 5.0)], false)
  {
    assert MenuFilePath("100") == "Menu/fl_100_menu.json";
  }

  lemma ScenarioMenuPrice(doc: MenuJson)
    requires doc == MenuObject(Some(CategoryMap([
      CategoryEntry("Boxes", ItemSeq([ItemObject(Some(Target), Some(PriceText("$5.00")))]))])))
    ensures MenuPrice(doc) == Priced(5.0)
  {
    ExtractDollarFive("$5.00");
    var items := [ItemObject(Some(Target), Some(PriceText("$5.00")))];
    assert ItemsScan(items) == Priced(5.0);
  }
}
