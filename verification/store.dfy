/**
 * The selection kept between commands in the data-store file, and the commands that read and
 * write it: `all`, `filter`, `apply` and `status`.
 */
module Store {
  import opened Wrappers
  import opened Errors
  import opened Seqs
  import opened Dicts
  import opened Frames
  import opened Parsers
  import opened Query

  /** The file's three entries: the row labels of the current selection, the filters behind it, the loads applied. */
  datatype Selection = Selection(indexes: seq<int>, filters: Dict<string>, loads: Dict<real>)

  /** The data-store file; `None` while it does not exist. */
  datatype DataStore = DataStore(file: Option<Selection>)

  /** What a command leaves behind: the data store, and the frame it displays or the error it raises. */
  datatype Outcome = Outcome(store: DataStore, shown: Result<Frame, Error>)

  /** `_get_current_indexes`: the three entries of the file; reading a missing file raises. */
  function GetCurrentIndexes(store: DataStore): (r: Result<Selection, Error>)
    ensures r.Success? <==> store.file.Some?
    ensures r.Failure? ==> r.error == StoreMissing
    ensures store.file.Some? ==> r == Success(store.file.value)
  {
    match store.file
    case None => Failure(StoreMissing)
    case Some(s) => Success(s)
  }

  /** `_set_current_indexes`: overwrite the file; reading it back returns exactly what was written. */
  function SetCurrentIndexes(indexes: seq<int>, filters: Dict<string>, loads: Dict<real>): (store: DataStore)
    ensures GetCurrentIndexes(store) == Success(Selection(indexes, filters, loads))
  {
    DataStore(Some(Selection(indexes, filters, loads)))
  }

  /** `_clear_data_store`: overwrite the file with no rows, no filters and no loads. */
  function ClearDataStore(): (store: DataStore)
    ensures GetCurrentIndexes(store) == Success(Selection([], [], []))
  {
    SetCurrentIndexes([], [], [])
  }

  /**
   * `all_sections`: parse the filters, clear the store, filter the whole catalog and store the
   * labels of the rows that remain. A failing filter raises after the store was cleared.
   */
  function AllSections(catalog: Catalog, args: seq<string>): (r: Outcome)
    ensures r.shown.Failure? ==> r.store == ClearDataStore()
    ensures r.shown.Failure? ==> ApplyAllFilters(Full(catalog), ParseKwargs(args)) == Failure(r.shown.error)
    ensures r.shown.Success? <==> AllAccepted(catalog.columns, ParseKwargs(args))
    ensures r.shown.Success? ==>
              r.shown.value == Frame(catalog.columns, Where(Full(catalog).records, Criteria(catalog.columns, ParseKwargs(args))))
    ensures r.shown.Success? ==>
              GetCurrentIndexes(r.store) == Success(Selection(Labels(r.shown.value.records), ParseKwargs(args), []))
  {
    var kwargs := ParseKwargs(args);
    var cleared := ClearDataStore();
    var full := Full(catalog);
    match ApplyAllFilters(full, kwargs)
    case Failure(e) => Outcome(cleared, Failure(e))
    case Success(selection) =>
      ApplyAllFiltersKeepsConjunction(full, kwargs);
      Outcome(SetCurrentIndexes(Labels(selection.records), kwargs, []), Success(selection))
  }

  /** The labels `all` stores are catalog positions, strictly increasing. */
  lemma AllSectionsIndexes(catalog: Catalog, args: seq<string>)
    requires AllSections(catalog, args).shown.Success?
    ensures var indexes := GetCurrentIndexes(AllSections(catalog, args).store).value.indexes;
            && (forall k :: 0 <= k < |indexes| ==> 0 <= indexes[k] < |catalog.rows|)
            && (forall k, l :: 0 <= k < l < |indexes| ==> indexes[k] < indexes[l])
  {
    var full := Full(catalog);
    var kwargs := ParseKwargs(args);
    var rs := AllSections(catalog, args).shown.value.records;
    var idx := WhereEmbeds(full.records, Criteria(catalog.columns, kwargs));
    assert forall k :: 0 <= k < |rs| ==> Labels(rs)[k] == idx[k];
  }

  /**
   * `filter_sections`: reload the stored selection from the catalog, apply the new filters,
   * and store the remaining labels with the new filters merged over the old ones. Any failure
   * raises before the store is written.
   */
  function FilterSections(store: DataStore, catalog: Catalog, args: seq<string>): (r: Outcome)
    ensures r.shown.Failure? ==> r.store == store
    ensures store.file.None? ==> r.shown == Failure(StoreMissing)
    ensures store.file.Some? && ILoc(Full(catalog), store.file.value.indexes).Failure? ==>
              r.shown == Failure(PositionOutOfBounds)
    ensures store.file.Some? && ILoc(Full(catalog), store.file.value.indexes).Success? && r.shown.Failure? ==>
              ApplyAllFilters(ILoc(Full(catalog), store.file.value.indexes).value, ParseKwargs(args)) == Failure(r.shown.error)
    ensures r.shown.Success? ==> store.file.Some? && r.shown.value.columns == catalog.columns
    ensures r.shown.Success? <==>
              store.file.Some? && ILoc(Full(catalog), store.file.value.indexes).Success? &&
              AllAccepted(catalog.columns, ParseKwargs(args))
    ensures r.shown.Success? ==>
              var current := ILoc(Full(catalog), store.file.value.indexes).value;
              r.shown.value == Frame(catalog.columns, Where(current.records, Criteria(catalog.columns, ParseKwargs(args))))
    ensures r.shown.Success? ==>
              var prev := store.file.value;
              GetCurrentIndexes(r.store) ==
                Success(Selection(Labels(r.shown.value.records), Update(prev.filters, ParseKwargs(args)), prev.loads))
  {
    var kwargs := ParseKwargs(args);
    match GetCurrentIndexes(store)
    case Failure(e) => Outcome(store, Failure(e))
    case Success(prev) =>
      match ILoc(Full(catalog), prev.indexes)
      case Failure(e) => Outcome(store, Failure(e))
      case Success(current) =>
        match ApplyAllFilters(current, kwargs)
        case Failure(e) => Outcome(store, Failure(e))
        case Success(selection) =>
          ApplyAllFiltersKeepsConjunction(current, kwargs);
          Outcome(SetCurrentIndexes(Labels(selection.records), Update(prev.filters, kwargs), prev.loads), Success(selection))
  }

  /** `filter` only narrows: the new labels are a subsequence of the positions the stored indexes denote. */
  lemma FilterSectionsNarrows(store: DataStore, catalog: Catalog, args: seq<string>) returns (idx: seq<nat>)
    requires FilterSections(store, catalog, args).shown.Success?
    ensures var after := GetCurrentIndexes(FilterSections(store, catalog, args).store).value.indexes;
            Embeds(idx, after, Resolve(store.file.value.indexes, |catalog.rows|))
  {
    var prev := store.file.value;
    var current := ILoc(Full(catalog), prev.indexes).value;
    ILocLabels(catalog, prev.indexes);
    var kwargs := ParseKwargs(args);
    var inner := ApplyAllFiltersNarrows(current, kwargs);
    EmbedsMap(inner, ApplyAllFilters(current, kwargs).value.records, current.records, LabelOf);
    idx := inner;
  }

  /** After `filter`, a key named on the command line has its new expression; every other key keeps its old one. */
  lemma FilterSectionsMergesFilters(store: DataStore, catalog: Catalog, args: seq<string>, k: string)
    requires FilterSections(store, catalog, args).shown.Success?
    ensures var after := GetCurrentIndexes(FilterSections(store, catalog, args).store).value.filters;
            var kwargs := ParseKwargs(args);
            Lookup(after, k) == if k in Keys(kwargs) then Lookup(kwargs, k) else Lookup(store.file.value.filters, k)
  {
    UpdateLookup(store.file.value.filters, ParseKwargs(args), k);
  }

  /** Set `k` to the supplied value, if there is one. */
  function PutIfGiven(d: Dict<real>, k: string, o: Option<real>): (r: Dict<real>)
    ensures Lookup(r, k) == if o.Some? then o else Lookup(d, k)
    ensures forall k' :: k' != k ==> Lookup(r, k') == Lookup(d, k')
    ensures forall k' :: k' in Keys(r) ==> k' in Keys(d) || k' == k
  {
    if o.Some? then Put(d, k, o.value) else d
  }

  function NameOf(action: (string, Option<real>)): string
  {
    action.0
  }

  /** The loop of `apply_loads`: each supplied value is written under its name, in turn. */
  function Gather(d: Dict<real>, actions: seq<(string, Option<real>)>): (r: Dict<real>)
    ensures forall k :: k in Keys(r) ==> k in Keys(d) || k in Map(actions, NameOf)
    decreases |actions|
  {
    if actions == [] then d
    else
      var r := Gather(PutIfGiven(d, actions[0].0, actions[0].1), actions[1..]);
      assert forall k :: k in Map(actions[1..], NameOf) ==> k in Map(actions, NameOf) by {
        forall k | k in Map(actions[1..], NameOf)
          ensures k in Map(actions, NameOf)
        {
          var j :| 0 <= j < |actions| - 1 && Map(actions[1..], NameOf)[j] == k;
          assert Map(actions, NameOf)[j + 1] == k;
        }
      }
      assert actions[0].0 == Map(actions, NameOf)[0];
      r
  }

  /** A name no action carries keeps the value it had before the loop. */
  lemma {:induction false} GatherOther(d: Dict<real>, actions: seq<(string, Option<real>)>, k: string)
    requires forall j :: 0 <= j < |actions| ==> actions[j].0 != k
    ensures Lookup(Gather(d, actions), k) == Lookup(d, k)
    decreases |actions|
  {
    if actions != [] {
      GatherOther(PutIfGiven(d, actions[0].0, actions[0].1), actions[1..], k);
    }
  }

  /** With distinct names, the value under each action's name is the supplied one, or the earlier one when none is supplied. */
  lemma {:induction false} GatherLookup(d: Dict<real>, actions: seq<(string, Option<real>)>, i: nat)
    requires i < |actions|
    requires forall j, l :: 0 <= j < l < |actions| ==> actions[j].0 != actions[l].0
    ensures Lookup(Gather(d, actions), actions[i].0) == if actions[i].1.Some? then actions[i].1 else Lookup(d, actions[i].0)
    decreases |actions|
  {
    var d' := PutIfGiven(d, actions[0].0, actions[0].1);
    var rest := actions[1..];
    if i == 0 {
      GatherOther(d', rest, actions[0].0);
    } else {
      assert rest[i - 1] == actions[i];
      GatherLookup(d', rest, i - 1);
    }
  }

  /** The load names, in the order `apply_loads` visits them. */
  const LoadNames: seq<string> := ["N", "Mx", "My", "Vx", "Vy", "T"]

  /** The loads supplied on the command line, gathered into a fresh dict. */
  function SuppliedLoads(n: Option<real>, mx: Option<real>, my: Option<real>, vx: Option<real>, vy: Option<real>, t: Option<real>): (r: Dict<real>)
    ensures Lookup(r, "N") == n && Lookup(r, "Mx") == mx && Lookup(r, "My") == my
    ensures Lookup(r, "Vx") == vx && Lookup(r, "Vy") == vy && Lookup(r, "T") == t
    ensures forall k :: k in Keys(r) ==> k in LoadNames
  {
    var actions := [("N", n), ("Mx", mx), ("My", my), ("Vx", vx), ("Vy", vy), ("T", t)];
    var none: Dict<real> := [];
    assert Map(actions, NameOf) == LoadNames;
    assert forall j, l :: 0 <= j < l < |actions| ==> actions[j].0 != actions[l].0 by {
      assert "Mx"[1] != "My"[1] && "Vx"[1] != "Vy"[1] && "Mx"[0] != "Vx"[0];
    }
    GatherLookup(none, actions, 0);
    GatherLookup(none, actions, 1);
    GatherLookup(none, actions, 2);
    GatherLookup(none, actions, 3);
    GatherLookup(none, actions, 4);
    GatherLookup(none, actions, 5);
    Gather(none, actions)
  }

  /**
   * `apply_loads`: reload the stored selection and store the supplied loads in place of the
   * previous ones, keeping the indexes and filters. Reloading fails before the store is written.
   */
  function ApplyLoads(store: DataStore, catalog: Catalog,
                      n: Option<real>, mx: Option<real>, my: Option<real>, vx: Option<real>, vy: Option<real>, t: Option<real>): (r: Outcome)
    ensures r.shown.Failure? ==> r.store == store
    ensures r.shown.Success? <==>
              store.file.Some? && forall k :: 0 <= k < |store.file.value.indexes| ==> InBounds(store.file.value.indexes[k], |catalog.rows|)
    ensures store.file.Some? && r.shown.Failure? ==> r.shown.error == PositionOutOfBounds
    ensures r.shown.Success? ==> ShowsStored(catalog, store.file.value.indexes, r.shown.value)
    ensures r.shown.Success? ==>
              var prev := store.file.value;
              GetCurrentIndexes(r.store) == Success(Selection(prev.indexes, prev.filters, SuppliedLoads(n, mx, my, vx, vy, t)))
  {
    var loads := SuppliedLoads(n, mx, my, vx, vy, t);
    match GetCurrentIndexes(store)
    case Failure(e) => Outcome(store, Failure(e))
    case Success(prev) =>
      match ILoc(Full(catalog), prev.indexes)
      case Failure(e) => Outcome(store, Failure(e))
      case Success(current) =>
        ILocShowsStored(catalog, prev.indexes);
        Outcome(SetCurrentIndexes(prev.indexes, prev.filters, loads), Success(current))
  }

  /** `display_table`: reload and show the stored selection; the store is only read. */
  function DisplayTable(store: DataStore, catalog: Catalog): (r: Outcome)
    ensures r.store == store
    ensures store.file.None? ==> r.shown == Failure(StoreMissing)
    ensures r.shown.Success? <==>
              store.file.Some? && forall k :: 0 <= k < |store.file.value.indexes| ==> InBounds(store.file.value.indexes[k], |catalog.rows|)
    ensures store.file.Some? && r.shown.Failure? ==> r.shown.error == PositionOutOfBounds
    ensures r.shown.Success? ==> ShowsStored(catalog, store.file.value.indexes, r.shown.value)
  {
    match GetCurrentIndexes(store)
    case Failure(e) => Outcome(store, Failure(e))
    case Success(prev) =>
      var shown := ILoc(Full(catalog), prev.indexes);
      if shown.Success? then
        ILocShowsStored(catalog, prev.indexes);
        Outcome(store, shown)
      else
        Outcome(store, shown)
  }

  /**
   * `f` is `aisc_full_df.iloc[indexes]`: the catalog's columns, and catalog rows unchanged,
   * labelled by the positions the indexes denote once negatives are resolved.
   */
  predicate ShowsStored(catalog: Catalog, indexes: seq<int>, f: Frame)
  {
    && f.columns == catalog.columns
    && FromCatalog(catalog, f.records)
    && Labels(f.records) == Resolve(indexes, |catalog.rows|)
  }

  /** A successful `iloc` on the catalog shows the stored selection. */
  lemma ILocShowsStored(catalog: Catalog, indexes: seq<int>)
    requires ILoc(Full(catalog), indexes).Success?
    ensures ShowsStored(catalog, indexes, ILoc(Full(catalog), indexes).value)
  {
    ILocLabels(catalog, indexes);
  }

  /** At most one frame shows a given selection: the stored indexes fix every row and every cell. */
  lemma ShowsStoredUnique(catalog: Catalog, indexes: seq<int>, f: Frame, g: Frame)
    requires ShowsStored(catalog, indexes, f) && ShowsStored(catalog, indexes, g)
    ensures f == g
  {
    assert |f.records| == |Labels(f.records)| == |Labels(g.records)| == |g.records|;
    forall k | 0 <= k < |f.records|
      ensures f.records[k] == g.records[k]
    {
      assert f.records[k].index == Labels(f.records)[k] == Labels(g.records)[k] == g.records[k].index;
    }
  }

  /** Every row is the catalog row at the position its label names. */
  predicate FromCatalog(c: Catalog, rs: seq<Record>)
  {
    forall k :: 0 <= k < |rs| ==> 0 <= rs[k].index < |c.rows| && rs[k].fields == c.rows[rs[k].index]
  }

  /** Catalog rows are found again by their labels: storing labels loses nothing. */
  lemma Reload(c: Catalog, rs: seq<Record>)
    requires FromCatalog(c, rs)
    ensures ILoc(Full(c), Labels(rs)) == Success(Frame(c.columns, rs))
  {
    var r := ILoc(Full(c), Labels(rs));
    assert forall k :: 0 <= k < |rs| ==> Labels(rs)[k] == rs[k].index;
    assert r.Success?;
    assert r.value.records == rs;
  }

  lemma WhereFromCatalog(c: Catalog, rs: seq<Record>, p: Record -> bool)
    requires FromCatalog(c, rs)
    ensures FromCatalog(c, Where(rs, p))
  {
    var ws := Where(rs, p);
    forall k | 0 <= k < |ws|
      ensures 0 <= ws[k].index < |c.rows| && ws[k].fields == c.rows[ws[k].index]
    {
      WhereMembers(rs, p, ws[k]);
    }
  }

  /** After `all`, `status` shows exactly the selection `all` showed. */
  lemma StatusAfterAll(catalog: Catalog, args: seq<string>)
    requires AllSections(catalog, args).shown.Success?
    ensures DisplayTable(AllSections(catalog, args).store, catalog).shown == AllSections(catalog, args).shown
  {
    var kwargs := ParseKwargs(args);
    WhereFromCatalog(catalog, Full(catalog).records, Criteria(catalog.columns, kwargs));
    Reload(catalog, AllSections(catalog, args).shown.value.records);
  }

  /** After `apply`, `status` shows exactly the selection `apply` showed. */
  lemma StatusAfterApply(store: DataStore, catalog: Catalog,
                         n: Option<real>, mx: Option<real>, my: Option<real>, vx: Option<real>, vy: Option<real>, t: Option<real>)
    requires ApplyLoads(store, catalog, n, mx, my, vx, vy, t).shown.Success?
    ensures var after := ApplyLoads(store, catalog, n, mx, my, vx, vy, t);
            DisplayTable(after.store, catalog).shown == after.shown
  {
    var after := ApplyLoads(store, catalog, n, mx, my, vx, vy, t);
    var indexes := store.file.value.indexes;
    assert after.store.file.value.indexes == indexes;
    ShowsStoredUnique(catalog, indexes, DisplayTable(after.store, catalog).shown.value, after.shown.value);
  }

  /** After `filter`, `status` shows exactly the selection `filter` showed. */
  lemma StatusAfterFilter(store: DataStore, catalog: Catalog, args: seq<string>)
    requires FilterSections(store, catalog, args).shown.Success?
    ensures DisplayTable(FilterSections(store, catalog, args).store, catalog).shown == FilterSections(store, catalog, args).shown
  {
    var prev := store.file.value;
    var current := ILoc(Full(catalog), prev.indexes).value;
    var kwargs := ParseKwargs(args);
    assert FromCatalog(catalog, current.records);
    ApplyAllFiltersKeepsConjunction(current, kwargs);
    WhereFromCatalog(catalog, current.records, Criteria(current.columns, kwargs));
    Reload(catalog, FilterSections(store, catalog, args).shown.value.records);
  }
}
