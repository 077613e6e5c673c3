/**
 * The `Adapter` of pinmap/adapter.py as a class: the mapping table, the bus table and one
 * pin selector per mapping row (its options, its value and its chain links), with the
 * methods that refresh a selector, apply a selector change and refresh the chain.
 */
module PinMapAdapter {
  import opened Wrappers
  import opened Labels
  import opened PinOptions
  import opened Allocation
  import opened SelectorChain

  /**
   * `UpdaterFunction` over a queue of changed selectors, handled one after another with the
   * values the selectors show; the first change that raises ends the updater.
   */
  function Replay(c: Catalog, mapping: seq<MappingRow>, buses: map<string, Bus>, values: seq<string>,
                  queue: seq<nat>): (o: Outcome)
    requires WellFormed(c) && KeysInRange(c, mapping) && BusTable(mapping, buses) && |values| == |mapping|
    requires forall i :: 0 <= i < |queue| ==> queue[i] < |mapping|
    ensures |o.mapping| == |mapping| && KeysInRange(c, o.mapping) && BusTable(o.mapping, o.buses)
    ensures o.buses.Keys == buses.Keys
    decreases |queue|
  {
    if |queue| == 0 then Outcome(mapping, buses, false)
    else
      var self := queue[0];
      ApplyChangeKeepsTables(c, mapping, buses, self, values[self]);
      var o := ApplyChange(c, mapping, buses, self, values[self]);
      if o.raised then o else Replay(c, o.mapping, o.buses, values, queue[1..])
  }

  /** However many changes are replayed, every mapped label still resolves to its row's key. */
  lemma {:induction false} ReplayKeepsLabels(c: Catalog, mapping: seq<MappingRow>, buses: map<string, Bus>,
                                             values: seq<string>, queue: seq<nat>)
    requires WellFormed(c) && KeysInRange(c, mapping) && BusTable(mapping, buses) && |values| == |mapping|
    requires forall i :: 0 <= i < |queue| ==> queue[i] < |mapping|
    requires LabelsAgree(c, mapping)
    ensures LabelsAgree(c, Replay(c, mapping, buses, values, queue).mapping)
    decreases |queue|
  {
    if |queue| > 0 {
      var self := queue[0];
      ApplyChangeKeepsTables(c, mapping, buses, self, values[self]);
      ApplyChangeKeepsLabels(c, mapping, buses, self, values[self]);
      var o := ApplyChange(c, mapping, buses, self, values[self]);
      if !o.raised {
        ReplayKeepsLabels(c, o.mapping, o.buses, values, queue[1..]);
      }
    }
  }

  /** Appending a row extends the member list of its bus by that row's index. */
  lemma {:induction false} BusMembersSnoc(mapping: seq<MappingRow>, row: MappingRow, bus: string, from: nat)
    requires from <= |mapping|
    ensures BusMembers(mapping + [row], bus, from)
      == BusMembers(mapping, bus, from) + (if row.bus == bus then [|mapping|] else [])
    decreases |mapping| - from
  {
    if from < |mapping| {
      BusMembersSnoc(mapping, row, bus, from + 1);
      SnocStep(mapping, row, bus, from);
    } else {
      assert BusMembers(mapping + [row], bus, from + 1) == [];
    }
  }

  lemma SnocStep(mapping: seq<MappingRow>, row: MappingRow, bus: string, from: nat)
    requires from < |mapping|
    requires BusMembers(mapping + [row], bus, from + 1)
      == BusMembers(mapping, bus, from + 1) + (if row.bus == bus then [|mapping|] else [])
    ensures BusMembers(mapping + [row], bus, from)
      == BusMembers(mapping, bus, from) + (if row.bus == bus then [|mapping|] else [])
  {
    var extended := mapping + [row];
    assert extended[from] == mapping[from];
    MembersUnfold(extended, bus, from);
    MembersUnfold(mapping, bus, from);
    var head := if mapping[from].bus == bus then [from] else [];
    var tail := if row.bus == bus then [|mapping|] else [];
    AppendAssoc(head, BusMembers(mapping, bus, from + 1), tail);
  }

  /** The scan of `_updateBusModuleKey`: the module of the first mapped member, -1 when none is. */
  method FirstMappedModule(c: Catalog, mapping: seq<MappingRow>, members: seq<nat>) returns (lock: int)
    requires WellFormed(c) && KeysInRange(c, mapping)
    requires forall i :: 0 <= i < |members| ==> members[i] < |mapping|
    ensures lock == MembersModule(c, mapping, members)
  {
    lock := Unmapped;
    var i := 0;
    while i < |members|
      invariant 0 <= i <= |members| && lock == Unmapped
      invariant MembersModule(c, mapping, members) == MembersModule(c, mapping, members[i..])
    {
      var rest := members[i..];
      assert rest[1..] == members[i + 1..];
      if mapping[members[i]].key != Unmapped {
        lock := ModuleOf(c, mapping[members[i]].key);
        break;
      }
      i := i + 1;
    }
  }

  /** The loop of `_updateSelectorOptions` that builds the menu of row `self`. */
  method BuildMenu(c: Catalog, matches: Matcher, mapping: seq<MappingRow>, buses: map<string, Bus>,
                   self: nat, selectorValue: string) returns (menu: seq<string>)
    requires WellFormed(c) && KeysInRange(c, mapping) && self < |mapping| && mapping[self].bus in buses
    ensures menu == MenuOptions(c, matches, mapping, buses, self, selectorValue)
  {
    var own := OwnKeys(c, mapping[self], selectorValue);
    var usedPins := UsedKeys(c, mapping, PinKind, own.0);
    var usedModFuncs := UsedKeys(c, mapping, ModFuncKind, own.1);
    var allowed := AllowedCandidates(c, matches, mapping[self], buses);
    var entry := (k: nat) requires WellFormed(c) && k < |c.pinModFunc| => MenuEntry(c, mapping, self, usedPins, usedModFuncs, k);
    menu := AppendEach(allowed, entry);
    MenuFromEntries(c, matches, mapping, buses, self, selectorValue, menu);
  }

  lemma MenuFromEntries(c: Catalog, matches: Matcher, mapping: seq<MappingRow>, buses: map<string, Bus>,
                        self: nat, selectorValue: string, menu: seq<string>)
    requires WellFormed(c) && KeysInRange(c, mapping) && self < |mapping| && mapping[self].bus in buses
    requires var own := OwnKeys(c, mapping[self], selectorValue);
      var allowed := AllowedCandidates(c, matches, mapping[self], buses);
      && |menu| == |allowed| + 1 && menu[0] == ""
      && forall i :: 0 <= i < |allowed| ==>
           menu[i + 1] == MenuEntry(c, mapping, self, UsedKeys(c, mapping, PinKind, own.0), UsedKeys(c, mapping, ModFuncKind, own.1), allowed[i])
    ensures menu == MenuOptions(c, matches, mapping, buses, self, selectorValue)
  {
    var own := OwnKeys(c, mapping[self], selectorValue);
    var allowed := AllowedCandidates(c, matches, mapping[self], buses);
    var e := Entries(c, mapping, self, UsedKeys(c, mapping, PinKind, own.0), UsedKeys(c, mapping, ModFuncKind, own.1), allowed);
    EmptyThen(menu, e);
  }

  /** A list whose first entry is empty and whose other entries are `e`'s, in order, is `[""] + e`. */
  lemma EmptyThen(menu: seq<string>, e: seq<string>)
    requires |menu| == |e| + 1 && menu[0] == "" && forall i :: 0 <= i < |e| ==> menu[i + 1] == e[i]
    ensures menu == [""] + e
  {
    var tail := menu[1..];
    forall i | 0 <= i < |e| ensures tail[i] == e[i] {
    }
    assert menu == [menu[0]] + tail;
  }

  /** The menu loop of `_updateSelectorOptions`: after a leading empty entry, one entry per key, in order. */
  method AppendEach(keys: seq<nat>, entry: nat --> string) returns (menu: seq<string>)
    requires forall i :: 0 <= i < |keys| ==> entry.requires(keys[i])
    ensures |menu| == |keys| + 1 && menu[0] == ""
    ensures forall i :: 0 <= i < |keys| ==> menu[i + 1] == entry(keys[i])
  {
    menu := [""];
    for i := 0 to |keys|
      invariant |menu| == i + 1 && menu[0] == ""
      invariant forall j :: 0 <= j < i ==> menu[j + 1] == entry(keys[j])
    {
      menu := menu + [entry(keys[i])];
    }
  }

  /**
   * The bus table `_generateFrontendElements` builds: one entry per bus name in the mapping,
   * unlocked, whose members are the rows on that bus in mapping order.
   */
  method BuildBuses(rows: seq<MappingRow>) returns (buses: map<string, Bus>)
    ensures BusTable(rows, buses)
    ensures forall b :: b in buses <==> exists r :: 0 <= r < |rows| && rows[r].bus == b
    ensures forall b :: b in buses ==> buses[b].moduleKey == Unmapped
  {
    buses := map[];
    for r := 0 to |rows|
      invariant forall b :: b in buses <==> exists q :: 0 <= q < r && rows[q].bus == b
      invariant forall b :: b in buses ==> buses[b] == Bus([], Unmapped)
    {
      buses := buses[rows[r].bus := Bus([], Unmapped)];
    }
    for r := 0 to |rows|
      invariant forall b :: b in buses <==> exists q :: 0 <= q < |rows| && rows[q].bus == b
      invariant forall b :: b in buses ==> buses[b] == Bus(BusMembers(rows[..r], b, 0), Unmapped)
    {
      var b := rows[r].bus;
      assert b in buses;
      AddMember(rows, r, buses);
      buses := buses[b := buses[b].(members := buses[b].members + [r])];
    }
    assert rows[..|rows|] == rows;
  }

  /** Appending row `r` to the member list of its bus turns the lists of `rows[..r]` into those of `rows[..r + 1]`. */
  lemma AddMember(rows: seq<MappingRow>, r: nat, buses: map<string, Bus>)
    requires r < |rows| && rows[r].bus in buses
    requires forall b :: b in buses ==> buses[b] == Bus(BusMembers(rows[..r], b, 0), Unmapped)
    ensures var b := rows[r].bus;
      var after := buses[b := buses[b].(members := buses[b].members + [r])];
      forall b' :: b' in after ==> after[b'] == Bus(BusMembers(rows[..r + 1], b', 0), Unmapped)
  {
    var b := rows[r].bus;
    var after := buses[b := buses[b].(members := buses[b].members + [r])];
    var prefix := rows[..r];
    assert rows[..r + 1] == prefix + [rows[r]];
    forall b' | b' in after ensures after[b'] == Bus(BusMembers(rows[..r + 1], b', 0), Unmapped) {
      BusMembersSnoc(prefix, rows[r], b', 0);
    }
  }

  /**
   * A selector of row `r` that shows `options` and `value` has been refreshed from the value
   * `before`: its options are the menu built while it showed `before`, and its value is
   * what the row's stored label selects in them.
   */
  predicate FreshRow(c: Catalog, matches: Matcher, mapping: seq<MappingRow>, buses: map<string, Bus>, r: nat,
                     options: seq<string>, value: string, before: string)
    requires WellFormed(c) && KeysInRange(c, mapping) && r < |mapping| && mapping[r].bus in buses
  {
    && options == MenuOptions(c, matches, mapping, buses, r, before)
    && value == ShownValue(options, mapping[r].mapped)
  }

  /**
   * `view` holds, for every row, the fresh selector state it gets when refreshed from its
   * value in `before`.
   */
  predicate FreshView(c: Catalog, matches: Matcher, mapping: seq<MappingRow>, buses: map<string, Bus>,
                      before: seq<string>, view: seq<(seq<string>, string)>)
    requires WellFormed(c) && KeysInRange(c, mapping) && BusTable(mapping, buses) && |before| == |mapping|
  {
    && |view| == |mapping|
    && forall r {:trigger MenuOptions(c, matches, mapping, buses, r, before[r])} :: 0 <= r < |mapping| ==>
      FreshRow(c, matches, mapping, buses, r, view[r].0, view[r].1, before[r])
  }

  /** Every table of selectors has its fresh view. */
  lemma FreshViewExists(c: Catalog, matches: Matcher, mapping: seq<MappingRow>, buses: map<string, Bus>,
                        before: seq<string>) returns (view: seq<(seq<string>, string)>)
    requires WellFormed(c) && KeysInRange(c, mapping) && BusTable(mapping, buses) && |before| == |mapping|
    ensures FreshView(c, matches, mapping, buses, before, view)
  {
    view := seq(|mapping|, r requires 0 <= r < |mapping| =>
      var options := MenuOptions(c, matches, mapping, buses, r, before[r]);
      (options, ShownValue(options, mapping[r].mapped)));
  }

  /** Row `r` has been refreshed by a walk from `start` whose cursors stand at `prev` and `nxt`. */
  predicate Walked(r: nat, start: nat, prev: int, nxt: int, n: nat)
  {
    r == start || prev < r < start || start < r < (if nxt == NoSelector then n else nxt)
  }

  /**
   * The selectors during a walk from `start` with cursors `prev` and `nxt`: rows already
   * walked show their fresh state in `view`, the others still show their value in `before`.
   */
  ghost predicate WalkView(opts: seq<seq<string>>, vals: seq<string>, before: seq<string>,
                           view: seq<(seq<string>, string)>, start: nat, prev: int, nxt: int)
  {
    var n := |before|;
    && |opts| == n && |vals| == n && |view| == n
    && forall r :: 0 <= r < n ==>
         if Walked(r, start, prev, nxt, n) then opts[r] == view[r].0 && vals[r] == view[r].1
         else vals[r] == before[r]
  }

  lemma WalkStarts(opts: seq<seq<string>>, vals: seq<string>, before: seq<string>,
                   view: seq<(seq<string>, string)>, start: nat)
    requires start < |before| && |opts| == |before| && |vals| == |before| && |view| == |before|
    requires opts[start] == view[start].0 && vals[start] == view[start].1
    requires forall r :: 0 <= r < |before| && r != start ==> vals[r] == before[r]
    ensures WalkView(opts, vals, before, view, start, start - 1,
      if start < |before| - 1 then start + 1 else NoSelector)
  {
  }

  /** A row a cursor stands on has not been walked yet and still shows its old value. */
  lemma WalkAhead(opts: seq<seq<string>>, vals: seq<string>, before: seq<string>,
                  view: seq<(seq<string>, string)>, start: nat, prev: int, nxt: int, r: nat)
    requires WalkView(opts, vals, before, view, start, prev, nxt) && r < |before|
    requires (r == prev && prev < start) || (r == nxt && start < nxt)
    ensures vals[r] == before[r]
  {
  }

  lemma WalkPrevious(opts: seq<seq<string>>, vals: seq<string>, before: seq<string>,
                     view: seq<(seq<string>, string)>, start: nat, prev: int, nxt: int)
    requires WalkView(opts, vals, before, view, start, prev, nxt) && 0 <= prev < start < |before|
    ensures WalkView(opts[prev := view[prev].0], vals[prev := view[prev].1], before, view, start, prev - 1, nxt)
  {
  }

  lemma WalkNext(opts: seq<seq<string>>, vals: seq<string>, before: seq<string>,
                 view: seq<(seq<string>, string)>, start: nat, prev: int, nxt: int)
    requires WalkView(opts, vals, before, view, start, prev, nxt) && start < nxt < |before|
    ensures WalkView(opts[nxt := view[nxt].0], vals[nxt := view[nxt].1], before, view, start, prev,
      if nxt < |before| - 1 then nxt + 1 else NoSelector)
  {
  }

  /** With both cursors past the ends, every row has been walked. */
  lemma WalkDone(opts: seq<seq<string>>, vals: seq<string>, before: seq<string>,
                 view: seq<(seq<string>, string)>, start: nat, prev: int, nxt: int)
    requires WalkView(opts, vals, before, view, start, prev, nxt) && start < |before|
    requires prev == NoSelector && nxt == NoSelector
    ensures forall r :: 0 <= r < |before| ==> opts[r] == view[r].0 && vals[r] == view[r].1
  {
    forall r | 0 <= r < |before| ensures opts[r] == view[r].0 && vals[r] == view[r].1 {
      assert Walked(r, start, prev, nxt, |before|);
    }
  }

  class Adapter {
    const catalog: Catalog
    const matches: Matcher
    var mapping: seq<MappingRow>
    var buses: map<string, Bus>
    /** The options and the value of each row's pin selector. */
    var selectorOptions: seq<seq<string>>
    var selectorValues: seq<string>
    /**
     * `_generateFrontendElements`: one bus entry per bus of the mapping, all unlocked;
     * the selectors linked into a chain; each selector starts with the options `[""]` and
     * the value `""` and is then refreshed.
     */
    constructor (c: Catalog, m: Matcher, rows: seq<MappingRow>)
      requires WellFormed(c) && KeysInRange(c, rows)
      ensures Valid() && catalog == c && matches == m && mapping == rows
      ensures forall b :: b in buses <==> exists r :: 0 <= r < |rows| && rows[r].bus == b
      ensures forall b :: b in buses ==> buses[b].moduleKey == Unmapped
      ensures forall r :: 0 <= r < |rows| ==>
        FreshRow(c, m, rows, buses, r, selectorOptions[r], selectorValues[r], "")
    {
      var table := BuildBuses(rows);
      var backLinks, forwardLinks := LinkSelectors(|rows|);
      catalog := c;
      matches := m;
      mapping := rows;
      buses := table;
      previous, next := backLinks, forwardLinks;
      selectorOptions := seq(|rows|, _ => [""]);
      selectorValues := seq(|rows|, _ => "");
      new;
      ghost var blank := selectorValues;
      ghost var view := FreshViewExists(c, m, rows, table, blank);
      for j := 0 to |rows|
        invariant Valid() && mapping == rows && buses == table
        invariant forall r :: 0 <= r < |rows| ==>
          if r < j then selectorOptions[r] == view[r].0 && selectorValues[r] == view[r].1
          else selectorValues[r] == ""
      {
        Refresh(j, rows, table, blank, view);
      }
    }

    /** Each selector's `previous` and `next` selector, -1 for none. */
    var previous: seq<int>
    var next: seq<int>

    predicate Valid()
      reads this
    {
      && WellFormed(catalog) && KeysInRange(catalog, mapping) && BusTable(mapping, buses)
      && |selectorOptions| == |mapping| && |selectorValues| == |mapping|
      && (forall r :: 0 <= r < |selectorOptions| ==> |selectorOptions[r]| > 0)
      && previous == PreviousLinks(|mapping|) && next == NextLinks(|mapping|)
    }

    /** The menu row `r`'s selector would show now, given the value it shows. */
    function Menu(r: nat): seq<string>
      reads this
      requires Valid() && r < |mapping|
    {
      MenuOptions(catalog, matches, mapping, buses, r, selectorValues[r])
    }

    /**
     * `_updateBusModuleKey` for row `r`: unless the row is on the empty bus, the bus is
     * locked to the module of its first mapped member, or unlocked when none is mapped.
     */
    method UpdateBusModuleKey(r: nat)
      requires WellFormed(catalog) && KeysInRange(catalog, mapping) && r < |mapping| && BusesFit(mapping, buses)
      modifies this
      ensures mapping == old(mapping) && selectorOptions == old(selectorOptions)
      ensures buses == UpdateBus(catalog, old(mapping), old(buses), r)
      ensures selectorValues == old(selectorValues) && previous == old(previous) && next == old(next)
    {
      var b := mapping[r].bus;
      if b == "" {
        return;
      }
      var lock := FirstMappedModule(catalog, mapping, buses[b].members);
      buses := buses[b := buses[b].(moduleKey := lock)];
    }

    /**
     * `_updateSelectorOptions` for row `r`: the menu is the empty entry followed by each
     * allowed candidate's label with its conflict tag; the value is then set safely from
     * the label stored in the mapping.
     */
    method UpdateSelectorOptions(r: nat)
      requires Valid() && r < |mapping|
      modifies this
      ensures unchanged(this`mapping, this`buses, this`previous, this`next)
      ensures selectorOptions == old(selectorOptions)[r := old(Menu(r))]
      ensures selectorValues == old(selectorValues)[r := ShownValue(selectorOptions[r], mapping[r].mapped)]
      ensures Valid()
    {
      var menu, chosen := RowSelector(r);
      selectorOptions := selectorOptions[r := menu];
      selectorValues := selectorValues[r := chosen];
    }

    /** The menu of row `r` and the value its stored label selects in it. */
    method RowSelector(r: nat) returns (menu: seq<string>, chosen: string)
      requires Valid() && r < |mapping|
      ensures menu == Menu(r) && |menu| > 0 && chosen == ShownValue(menu, mapping[r].mapped)
    {
      menu := BuildMenu(catalog, matches, mapping, buses, r, selectorValues[r]);
      assert |menu| > 0;
      chosen := ShownSelectorValue(menu, mapping[r].mapped);
    }
  
    /**
     * `_updatePrimary` after a primary row gave up the candidate labelled `oldLabel`: the
     * first row still using its pin, else the first still using its pair, becomes primary.
     * Raises where the old label does not resolve.
     */
    method UpdatePrimary(oldLabel: string) returns (raised: bool)
      requires WellFormed(catalog) && KeysInRange(catalog, mapping)
      modifies this
      ensures var p := Promote(catalog, old(mapping), oldLabel);
        raised == p.None? && mapping == (if p.Some? then p.value else old(mapping))
      ensures unchanged(this`buses, this`selectorOptions, this`selectorValues, this`previous, this`next)
    {
      var fields := SplitSelectorValue(oldLabel);
      if fields.None? {
        return true;
      }
      var keys := ResolveKeys(catalog, fields.value);
      if keys.None? {
        return true;
      }
      var heir := Heir(catalog, mapping, keys.value.0, keys.value.1);
      if heir.Some? {
        mapping := MakePrimary(mapping, heir.value);
      }
      raised := false;
    }

    /**
     * `selectorChangeUpdateMapping` for row `r`: store what its selector shows (or clear the
     * row), move the primary flag if the row had it, and update the row's bus lock.
     * `raised` tells that the source raises part way; the state is then what it had written.
     */
    method SelectorChangeUpdateMapping(r: nat) returns (raised: bool)
      requires Valid() && r < |mapping|
      modifies this
      ensures BusesFit(old(mapping), old(buses))
      ensures var o := ApplyChange(catalog, old(mapping), old(buses), r, old(selectorValues[r]));
        mapping == o.mapping && buses == o.buses && raised == o.raised
      ensures unchanged(this`selectorOptions, this`selectorValues, this`previous, this`next)
      ensures Valid()
    {
      TableFits(mapping, buses);
      var oldRow := mapping[r];
      raised := StageChange(r);
      if raised {
        return;
      }
      raised := FinishChange(r, oldRow);
    }

    /** The first half of a change: clear row `r`, or resolve what its selector shows and assign it. */
    method StageChange(r: nat) returns (raised: bool)
      requires Valid() && r < |mapping|
      modifies this
      ensures var value := old(selectorValues[r]);
        && raised == (value != "" && ResolveLabel(catalog, value).None?)
        && mapping == (if raised then old(mapping)
                       else if value == "" then old(mapping)[r := Cleared(old(mapping)[r])]
                       else Assign(catalog, old(mapping), r, value, ResolveLabel(catalog, value).value))
      ensures unchanged(this`buses, this`selectorOptions, this`selectorValues, this`previous, this`next)
      ensures Valid()
    {
      var oldRow := mapping[r];
      var value := selectorValues[r];
      if value == "" {
        mapping := mapping[r := Cleared(oldRow)];
      } else {
        var k := ResolveLabel(catalog, value);
        if k.None? {
          return true;
        }
        mapping := Assign(catalog, mapping, r, value, k.value);
      }
      RowRewriteKeeps(catalog, old(mapping), buses, r, mapping);
      raised := false;
    }

    /** The second half of a change: move the primary flag that `oldRow` held, then update the bus lock. */
    method FinishChange(r: nat, oldRow: MappingRow) returns (raised: bool)
      requires Valid() && r < |mapping|
      modifies this
      ensures BusesFit(old(mapping), old(buses))
      ensures var o := AfterPrimary(catalog, old(mapping), old(buses), r, oldRow);
        mapping == o.mapping && buses == o.buses && raised == o.raised
      ensures unchanged(this`selectorOptions, this`selectorValues, this`previous, this`next)
      ensures Valid()
    {
      TableFits(mapping, buses);
      AfterPrimaryKeeps(catalog, mapping, buses, r, oldRow);
      if oldRow.primary {
        raised := UpdatePrimary(oldRow.mapped);
        if raised {
          return;
        }
      }
      UpdateBusModuleKey(r);
      raised := false;
    }

    /** `_updateSelectorOptions` for row `r`, seen as taking the row to its entry of a fresh view. */
    method Refresh(r: nat, ghost m: seq<MappingRow>, ghost b: map<string, Bus>,
                   ghost before: seq<string>, ghost view: seq<(seq<string>, string)>)
      requires Valid() && r < |mapping| && m == mapping && b == buses && |before| == |m|
      requires FreshView(catalog, matches, m, b, before, view) && selectorValues[r] == before[r]
      modifies this
      ensures unchanged(this`mapping, this`buses, this`previous, this`next)
      ensures Valid() && selectorOptions[r] == view[r].0 && selectorValues[r] == view[r].1
      ensures selectorOptions == old(selectorOptions)[r := selectorOptions[r]]
      ensures selectorValues == old(selectorValues)[r := selectorValues[r]]
    {
      UpdateSelectorOptions(r);
    }

    /** Refreshes the row at the backward cursor and moves the cursor to the row before it. */
    method StepBack(start: nat, prev: int, nxt: int, ghost m: seq<MappingRow>, ghost b: map<string, Bus>,
                    ghost before: seq<string>, ghost view: seq<(seq<string>, string)>) returns (prev': int)
      requires Valid() && m == mapping && b == buses && |before| == |m| && FreshView(catalog, matches, m, b, before, view)
      requires 0 <= prev < start < |m| && WalkView(selectorOptions, selectorValues, before, view, start, prev, nxt)
      modifies this
      ensures Valid() && unchanged(this`mapping, this`buses, this`previous, this`next)
      ensures prev' == prev - 1 && WalkView(selectorOptions, selectorValues, before, view, start, prev', nxt)
    {
      ghost var opts, vals := selectorOptions, selectorValues;
      WalkAhead(opts, vals, before, view, start, prev, nxt, prev);
      Refresh(prev, m, b, before, view);
      WalkPrevious(opts, vals, before, view, start, prev, nxt);
      prev' := previous[prev];
    }

    /** Refreshes the row at the forward cursor and moves the cursor to the row after it, if any. */
    method StepOn(start: nat, prev: int, nxt: int, ghost m: seq<MappingRow>, ghost b: map<string, Bus>,
                  ghost before: seq<string>, ghost view: seq<(seq<string>, string)>) returns (nxt': int)
      requires Valid() && m == mapping && b == buses && |before| == |m| && FreshView(catalog, matches, m, b, before, view)
      requires start < nxt < |m| && WalkView(selectorOptions, selectorValues, before, view, start, prev, nxt)
      modifies this
      ensures Valid() && unchanged(this`mapping, this`buses, this`previous, this`next)
      ensures nxt' == (if nxt < |m| - 1 then nxt + 1 else NoSelector)
      ensures WalkView(selectorOptions, selectorValues, before, view, start, prev, nxt')
    {
      ghost var opts, vals := selectorOptions, selectorValues;
      WalkAhead(opts, vals, before, view, start, prev, nxt, nxt);
      Refresh(nxt, m, b, before, view);
      WalkNext(opts, vals, before, view, start, prev, nxt);
      nxt' := next[nxt];
    }

    method UpdateFrontend(start: nat)
      requires Valid() && start < |mapping|
      modifies this
      ensures unchanged(this`mapping, this`buses, this`previous, this`next)
      ensures Valid() && |old(selectorValues)| == |mapping|
      ensures forall r :: 0 <= r < |mapping| ==>
        FreshRow(catalog, matches, mapping, buses, r, selectorOptions[r], selectorValues[r], old(selectorValues[r]))
    {
      ghost var values, m, b := selectorValues, mapping, buses;
      ghost var view := FreshViewExists(catalog, matches, m, b, values);
      Refresh(start, m, b, values, view);
      WalkStarts(selectorOptions, selectorValues, values, view, start);
      var prev := previous[start];
      var nxt := next[start];
      while prev != NoSelector || nxt != NoSelector
        invariant Valid() && unchanged(this`mapping, this`buses, this`previous, this`next)
        invariant -1 <= prev < start && (nxt == NoSelector || start < nxt < |m|)
        invariant WalkView(selectorOptions, selectorValues, values, view, start, prev, nxt)
        decreases prev + 1 + (if nxt == NoSelector then 0 else |m| - nxt)
      {
        if prev != NoSelector {
          prev := StepBack(start, prev, nxt, m, b, values, view);
        }
        if nxt != NoSelector {
          nxt := StepOn(start, prev, nxt, m, b, values, view);
        }
      }
      WalkDone(selectorOptions, selectorValues, values, view, start, prev, nxt);
    }

    /**
     * `UpdaterFunction` draining a queue of changed rows: each change is applied in turn
     * with the value its selector shows; the first that raises ends the updater; after the
     * last one the chain is refreshed from the last row changed.
     */
    method Drain(queue: seq<nat>) returns (raised: bool)
      requires Valid() && forall i :: 0 <= i < |queue| ==> queue[i] < |mapping|
      modifies this
      ensures Valid()
      ensures var o := Replay(catalog, old(mapping), old(buses), old(selectorValues), queue);
        mapping == o.mapping && buses == o.buses && raised == o.raised
      ensures raised || |queue| == 0 ==> selectorOptions == old(selectorOptions) && selectorValues == old(selectorValues)
      ensures !raised && |queue| > 0 ==>
        |old(selectorValues)| == |mapping| && forall r :: 0 <= r < |mapping| ==>
          FreshRow(catalog, matches, mapping, buses, r, selectorOptions[r], selectorValues[r], old(selectorValues)[r])
    {
      raised := false;
      var i := 0;
      while i < |queue|
        invariant 0 <= i <= |queue| && Valid()
        invariant unchanged(this`selectorOptions, this`selectorValues, this`previous, this`next)
        invariant |mapping| == |old(mapping)|
        invariant Replay(catalog, old(mapping), old(buses), old(selectorValues), queue)
          == Replay(catalog, mapping, buses, selectorValues, queue[i..])
      {
        assert queue[i..][0] == queue[i] && queue[i..][1..] == queue[i + 1..];
        raised := SelectorChangeUpdateMapping(queue[i]);
        if raised {
          return;
        }
        i := i + 1;
      }
      if |queue| > 0 {
        UpdateFrontend(queue[|queue| - 1]);
      }
    }
  }
}
