/**
 * The options catalog of pinmap/pinoptions.py: `PinOptions.__init__` turns the raw
 * alternate-function table (Board-Pin, MCU-Pin, optional Comment, ALTn-Module,
 * ALTn-Function, ...) into the five tables pins, modules, functions, modFunc and
 * pinModFunc. A key is the position of a row in its table.
 */
module PinOptions {

  const NotAvailable: string := "N/A"
  const NotConnected: string := "N/C"

  /** The entries of `listRemovable`: a module or function cell holding one of them is unusable. */
  predicate IsRemovable(name: string)
  {
    name == "" || name == NotAvailable || name == NotConnected
  }

  /** One ALTn slot of a raw row: the ALTn-Module cell and the ALTn-Function cell. */
  datatype Slot = Slot(moduleName: string, functionName: string)

  /** One row of the raw table; `alternatives[n]` is the ALTn slot. */
  datatype RawRow = RawRow(boardPin: string, mcuPin: string, comment: string, alternatives: seq<Slot>)

  /** The raw table: whether it has a Comment column, how many ALT slots, and its rows. */
  datatype RawTable = RawTable(hasComment: bool, width: nat, rows: seq<RawRow>)

  /** Every row has one cell per ALT column. */
  predicate Rectangular(t: RawTable)
  {
    forall i :: 0 <= i < |t.rows| ==> |t.rows[i].alternatives| == t.width
  }

  datatype Pin = Pin(boardPin: string, mcuPin: string, comment: string)
  datatype ModFunc = ModFunc(moduleKey: nat, functionKey: nat)
  datatype PinModFunc = PinModFunc(pinKey: nat, modFuncKey: nat)

  /** The five tables of a `PinOptions` object. */
  datatype Catalog = Catalog(
    pins: seq<Pin>,
    modules: seq<string>,
    functions: seq<string>,
    modFunc: seq<ModFunc>,
    pinModFunc: seq<PinModFunc>)

  /** Every key stored in modFunc and pinModFunc indexes a row of the table it refers to. */
  predicate WellFormed(c: Catalog)
  {
    && (forall m :: 0 <= m < |c.modFunc| ==>
          c.modFunc[m].moduleKey < |c.modules| && c.modFunc[m].functionKey < |c.functions|)
    && (forall k :: 0 <= k < |c.pinModFunc| ==>
          c.pinModFunc[k].pinKey < |c.pins| && c.pinModFunc[k].modFuncKey < |c.modFunc|)
  }

  /** What `PinOptions.__init__` guarantees of its tables and the Adapter relies on. */
  predicate Consistent(c: Catalog)
  {
    WellFormed(c) && NoDuplicates(c.modules) && NoDuplicates(c.functions) && NoDuplicates(c.modFunc)
  }

  // ----- sequences: first occurrences -----

  predicate NoDuplicates<T(==)>(s: seq<T>)
  {
    forall i, j :: 0 <= i < j < |s| ==> s[i] != s[j]
  }

  /** Position of the first occurrence of `x` in `s` (pandas' `.index[0]` of a mask). */
  function IndexOf<T(==)>(s: seq<T>, x: T): (i: nat)
    requires x in s
    ensures i < |s| && s[i] == x
    ensures forall j :: 0 <= j < i ==> s[j] != x
  {
    if s[0] == x then 0 else 1 + IndexOf(s[1..], x)
  }

  /** `s` lists values of `values`, ordered by where each first occurs in `values`. */
  predicate FirstSeenOrder<T(==)>(values: seq<T>, s: seq<T>)
  {
    && (forall x :: x in s ==> x in values)
    && forall i, j :: 0 <= i < j < |s| ==> IndexOf(values, s[i]) < IndexOf(values, s[j])
  }

  lemma OrderedHasNoDuplicates<T>(values: seq<T>, s: seq<T>)
    requires FirstSeenOrder(values, s)
    ensures NoDuplicates(s)
  {
  }

  /** `pd.unique`: each value once, at its first occurrence. */
  function Distinct<T(==)>(s: seq<T>): seq<T>
  {
    if |s| == 0 then []
    else
      var d := Distinct(s[..|s| - 1]);
      if s[|s| - 1] in d then d else d + [s[|s| - 1]]
  }

  lemma IndexOfExtend<T>(p: seq<T>, x: T, y: T)
    requires y in p
    ensures IndexOf(p + [x], y) == IndexOf(p, y)
  {
    var i, k := IndexOf(p + [x], y), IndexOf(p, y);
    assert (p + [x])[k] == y;
  }

  lemma IndexOfNew<T>(p: seq<T>, x: T)
    requires x !in p
    ensures IndexOf(p + [x], x) == |p|
  {
    assert forall j :: 0 <= j < |p| ==> (p + [x])[j] == p[j];
  }

  /** `pd.unique` keeps exactly the values of `s`, in first-occurrence order. */
  lemma {:induction false} DistinctSpec<T>(s: seq<T>)
    ensures forall x :: x in Distinct(s) <==> x in s
    ensures FirstSeenOrder(s, Distinct(s))
    ensures NoDuplicates(Distinct(s))
  {
    if |s| > 0 {
      var p, x := s[..|s| - 1], s[|s| - 1];
      assert s == p + [x];
      DistinctSpec(p);
      var d := Distinct(p);
      assert Distinct(s) == if x in d then d else d + [x];
      if x in d {
        OrderedExtend(p, x, d);
      } else {
        OrderedAppend(p, x, d);
      }
      OrderedHasNoDuplicates(s, Distinct(s));
    }
  }

  /** Appending a value to `values` keeps the order of what was seen before it. */
  lemma OrderedExtend<T>(p: seq<T>, x: T, d: seq<T>)
    requires FirstSeenOrder(p, d)
    ensures FirstSeenOrder(p + [x], d)
    ensures forall y :: y in d ==> IndexOf(p + [x], y) == IndexOf(p, y)
  {
    forall y | y in d ensures IndexOf(p + [x], y) == IndexOf(p, y) {
      IndexOfExtend(p, x, y);
    }
  }

  /** A value not seen before comes after everything seen before. */
  lemma OrderedAppend<T>(p: seq<T>, x: T, d: seq<T>)
    requires FirstSeenOrder(p, d) && x !in p
    ensures FirstSeenOrder(p + [x], d + [x])
  {
    OrderedExtend(p, x, d);
    IndexOfNew(p, x);
    var s, d' := p + [x], d + [x];
    forall i, j | 0 <= i < j < |d'| ensures IndexOf(s, d'[i]) < IndexOf(s, d'[j]) {
      assert d'[i] == d[i];
      if j < |d| {
        assert d'[j] == d[j];
      } else {
        assert IndexOf(p, d[i]) < |p|;
      }
    }
  }

  lemma DistinctAppend<T>(s: seq<T>, x: T)
    ensures Distinct(s + [x]) == if x in Distinct(s) then Distinct(s) else Distinct(s) + [x]
  {
    assert (s + [x])[..|s|] == s;
  }

  /** The rows of `names` other than `r`: `names[names != r]`. */
  function Without(names: seq<string>, r: string): (kept: seq<string>)
    ensures forall x :: x in kept <==> x in names && x != r
  {
    if |names| == 0 then []
    else Without(names[..|names| - 1], r) + (if names[|names| - 1] == r then [] else [names[|names| - 1]])
  }

  /** Filtering keeps the first-occurrence order. */
  lemma {:induction false} WithoutKeepsOrder(values: seq<string>, names: seq<string>, r: string)
    requires FirstSeenOrder(values, names)
    ensures FirstSeenOrder(values, Without(names, r))
  {
    if |names| > 0 {
      var p, last := names[..|names| - 1], names[|names| - 1];
      assert forall i :: 0 <= i < |p| ==> p[i] == names[i];
      WithoutKeepsOrder(values, p, r);
      var kept := Without(p, r);
      if last != r {
        var kept' := kept + [last];
        forall i, j | 0 <= i < j < |kept'| ensures IndexOf(values, kept'[i]) < IndexOf(values, kept'[j]) {
          if j == |kept| {
            assert kept'[i] in p;
            var k :| 0 <= k < |p| && p[k] == kept'[i];
            assert names[k] == kept'[i];
          } else {
            assert kept'[i] == kept[i] && kept'[j] == kept[j];
          }
        }
      }
    }
  }

  /** What the source promises of the modules and functions tables built from `values`. */
  predicate NameTable(values: seq<string>, names: seq<string>)
  {
    && (forall x :: x in names ==> x in values && !IsRemovable(x))
    && (forall x :: x in values && !IsRemovable(x) ==> x in names)
    && NoDuplicates(names)
    && FirstSeenOrder(values, names)
  }

  /**
   * The modules (or functions) table: `pd.unique` of the concatenated ALT columns,
   * then the loop over `listRemovable` dropping '', 'N/A' and 'N/C', keys renumbered 0..n-1.
   */
  method UsableNames(values: seq<string>) returns (names: seq<string>)
    ensures NameTable(values, names)
  {
    names := Distinct(values);
    DistinctSpec(values);
    var removables := ["", NotAvailable, NotConnected];
    for r := 0 to |removables|
      invariant forall x :: x in names <==> x in values && x !in removables[..r]
      invariant FirstSeenOrder(values, names)
    {
      WithoutKeepsOrder(values, names, removables[r]);
      names := Without(names, removables[r]);
    }
    assert removables[..|removables|] == removables;
    OrderedHasNoDuplicates(values, names);
  }

  // ----- the raw table, column by column and slot by slot -----

  datatype Part = ModulePart | FunctionPart

  function Pick(s: Slot, part: Part): string
  {
    match part
    case ModulePart => s.moduleName
    case FunctionPart => s.functionName
  }

  /** Column ALTj-Module (or ALTj-Function) of the raw table. */
  function ColumnValues(rows: seq<RawRow>, j: nat, part: Part): (column: seq<string>)
    requires forall i :: 0 <= i < |rows| ==> j < |rows[i].alternatives|
    ensures |column| == |rows|
    ensures forall i :: 0 <= i < |rows| ==> column[i] == Pick(rows[i].alternatives[j], part)
  {
    seq(|rows|, i requires 0 <= i < |rows| => Pick(rows[i].alternatives[j], part))
  }

  /** `pd.concat` of the first `n` ALT columns of one part, whole column after whole column. */
  function ConcatColumns(t: RawTable, n: nat, part: Part): seq<string>
    requires Rectangular(t) && n <= t.width
  {
    if n == 0 then [] else ConcatColumns(t, n - 1, part) + ColumnValues(t.rows, n - 1, part)
  }

  lemma {:induction false} CellInColumns(t: RawTable, n: nat, part: Part, i: nat, j: nat)
    requires Rectangular(t) && n <= t.width && i < |t.rows| && j < n
    ensures Pick(t.rows[i].alternatives[j], part) in ConcatColumns(t, n, part)
  {
    if j == n - 1 {
      assert ColumnValues(t.rows, n - 1, part)[i] == Pick(t.rows[i].alternatives[j], part);
    } else {
      CellInColumns(t, n - 1, part, i, j);
    }
  }

  /** An ALT slot is used unless its module or its function cell is removable. */
  predicate SlotUsable(s: Slot)
  {
    !IsRemovable(s.moduleName) && !IsRemovable(s.functionName)
  }

  /** A usable slot together with the index of the raw row it sits in. */
  datatype UsableSlot = UsableSlot(row: nat, slot: Slot)

  /** The usable slots of raw row `row`, in ALT column order. */
  function RowSlots(row: nat, alts: seq<Slot>): seq<UsableSlot>
  {
    if |alts| == 0 then []
    else
      var last := alts[|alts| - 1];
      RowSlots(row, alts[..|alts| - 1]) + (if SlotUsable(last) then [UsableSlot(row, last)] else [])
  }

  /** The usable slots of the whole table, row after row. */
  function UsableSlots(rows: seq<RawRow>): seq<UsableSlot>
  {
    if |rows| == 0 then []
    else UsableSlots(rows[..|rows| - 1]) + RowSlots(|rows| - 1, rows[|rows| - 1].alternatives)
  }

  lemma {:induction false} RowSlotsMembership(row: nat, alts: seq<Slot>, j: nat)
    requires j < |alts|
    ensures UsableSlot(row, alts[j]) in RowSlots(row, alts) <==> SlotUsable(alts[j])
  {
    var n := |alts|;
    var p := alts[..n - 1];
    if j < n - 1 {
      assert p[j] == alts[j];
      RowSlotsMembership(row, p, j);
    }
    if !SlotUsable(alts[j]) {
      RowSlotsOnlyUsable(row, alts);
    }
  }

  lemma {:induction false} RowSlotsOnlyUsable(row: nat, alts: seq<Slot>)
    ensures forall u :: u in RowSlots(row, alts) ==> SlotUsable(u.slot) && u.row == row && u.slot in alts
  {
    if |alts| > 0 {
      var p := alts[..|alts| - 1];
      RowSlotsOnlyUsable(row, p);
      assert forall s :: s in p ==> s in alts;
    }
  }

  /** Every usable slot is a slot of the row it names, and neither of its cells is removable. */
  lemma {:induction false} UsableSlotsRows(rows: seq<RawRow>)
    ensures forall u :: u in UsableSlots(rows) ==>
      && u.row < |rows| && u.slot in rows[u.row].alternatives
      && !IsRemovable(u.slot.moduleName) && !IsRemovable(u.slot.functionName)
  {
    if |rows| > 0 {
      var p := rows[..|rows| - 1];
      UsableSlotsRows(p);
      RowSlotsOnlyUsable(|rows| - 1, rows[|rows| - 1].alternatives);
      forall u | u in UsableSlots(p) ensures rows[u.row] == p[u.row] { }
    }
  }

  /** A slot is skipped exactly when its module or its function cell is removable. */
  lemma {:induction false} SlotSkippedIffRemovable(rows: seq<RawRow>, i: nat, j: nat)
    requires i < |rows| && j < |rows[i].alternatives|
    ensures UsableSlot(i, rows[i].alternatives[j]) in UsableSlots(rows)
      <==> SlotUsable(rows[i].alternatives[j])
  {
    var n := |rows|;
    var p := rows[..n - 1];
    var u := UsableSlot(i, rows[i].alternatives[j]);
    var earlier, last := UsableSlots(p), RowSlots(n - 1, rows[n - 1].alternatives);
    assert UsableSlots(rows) == earlier + last;
    assert u in UsableSlots(rows) <==> u in earlier || u in last;
    RowSlotsOnlyUsable(n - 1, rows[n - 1].alternatives);
    if i < n - 1 {
      assert u !in last;
      assert p[i] == rows[i];
      SlotSkippedIffRemovable(p, i, j);
    } else {
      UsableSlotsRows(p);
      assert u !in earlier;
      RowSlotsMembership(n - 1, rows[n - 1].alternatives, j);
    }
  }

  // ----- building the catalog -----

  function PairsOf(modFunc: seq<ModFunc>, pinModFunc: seq<PinModFunc>): (pairs: seq<ModFunc>)
    requires forall k :: 0 <= k < |pinModFunc| ==> pinModFunc[k].modFuncKey < |modFunc|
    ensures |pairs| == |pinModFunc|
    ensures forall k :: 0 <= k < |pinModFunc| ==> pairs[k] == modFunc[pinModFunc[k].modFuncKey]
  {
    seq(|pinModFunc|, k requires 0 <= k < |pinModFunc| => modFunc[pinModFunc[k].modFuncKey])
  }

  /** The module-function pair of each candidate, in pinModFunc order. */
  function UsedPairs(c: Catalog): seq<ModFunc>
    requires WellFormed(c)
  {
    PairsOf(c.modFunc, c.pinModFunc)
  }

  /** Candidate `k` came from slot `u`: same raw row, and its keys name the slot's module and function. */
  predicate CandidateFromSlot(modules: seq<string>, functions: seq<string>, modFunc: seq<ModFunc>,
                              cand: PinModFunc, u: UsableSlot)
  {
    && cand.pinKey == u.row
    && cand.modFuncKey < |modFunc|
    && modFunc[cand.modFuncKey].moduleKey < |modules|
    && modFunc[cand.modFuncKey].functionKey < |functions|
    && modules[modFunc[cand.modFuncKey].moduleKey] == u.slot.moduleName
    && functions[modFunc[cand.modFuncKey].functionKey] == u.slot.functionName
  }

  /** The state of the slot loop after the slots in `done`. */
  ghost predicate Progress(modules: seq<string>, functions: seq<string>, modFunc: seq<ModFunc>,
                           pinModFunc: seq<PinModFunc>, done: seq<UsableSlot>)
  {
    && (forall m :: 0 <= m < |modFunc| ==>
          modFunc[m].moduleKey < |modules| && modFunc[m].functionKey < |functions|)
    && |pinModFunc| == |done|
    && (forall k :: 0 <= k < |pinModFunc| ==>
          CandidateFromSlot(modules, functions, modFunc, pinModFunc[k], done[k]))
    && modFunc == Distinct(PairsOf(modFunc, pinModFunc))
  }

  /** One find-or-create step of the slot loop keeps the loop state. */
  lemma AddCandidate(modules: seq<string>, functions: seq<string>, modFunc: seq<ModFunc>,
                     pinModFunc: seq<PinModFunc>, done: seq<UsableSlot>, u: UsableSlot,
                     pair: ModFunc, idx: nat)
    requires Progress(modules, functions, modFunc, pinModFunc, done)
    requires pair.moduleKey < |modules| && modules[pair.moduleKey] == u.slot.moduleName
    requires pair.functionKey < |functions| && functions[pair.functionKey] == u.slot.functionName
    requires pair in modFunc ==> idx < |modFunc| && modFunc[idx] == pair
    requires pair !in modFunc ==> idx == |modFunc|
    ensures var modFunc' := if pair in modFunc then modFunc else modFunc + [pair];
      Progress(modules, functions, modFunc', pinModFunc + [PinModFunc(u.row, idx)], done + [u])
  {
    var modFunc' := if pair in modFunc then modFunc else modFunc + [pair];
    var cand := PinModFunc(u.row, idx);
    assert forall m :: 0 <= m < |modFunc'| ==>
      modFunc'[m].moduleKey < |modules| && modFunc'[m].functionKey < |functions| by {
      forall m | 0 <= m < |modFunc'| ensures modFunc'[m].moduleKey < |modules| && modFunc'[m].functionKey < |functions| {
        if m < |modFunc| {
          assert modFunc'[m] == modFunc[m];
        }
      }
    }
    assert CandidateFromSlot(modules, functions, modFunc', cand, u);
    PairsStaysDistinct(modFunc, pinModFunc, cand, pair);
    CandidatesExtend(modules, functions, modFunc, modFunc', pinModFunc, done, cand, u);
  }

  /** Finding or appending `pair` for a new candidate keeps the pair list the distinct used pairs. */
  lemma PairsStaysDistinct(modFunc: seq<ModFunc>, pinModFunc: seq<PinModFunc>, cand: PinModFunc, pair: ModFunc)
    requires forall k :: 0 <= k < |pinModFunc| ==> pinModFunc[k].modFuncKey < |modFunc|
    requires modFunc == Distinct(PairsOf(modFunc, pinModFunc))
    requires pair in modFunc ==> cand.modFuncKey < |modFunc| && modFunc[cand.modFuncKey] == pair
    requires pair !in modFunc ==> cand.modFuncKey == |modFunc|
    ensures var modFunc' := if pair in modFunc then modFunc else modFunc + [pair];
      && (forall k :: 0 <= k < |pinModFunc + [cand]| ==> (pinModFunc + [cand])[k].modFuncKey < |modFunc'|)
      && modFunc' == Distinct(PairsOf(modFunc', pinModFunc + [cand]))
  {
    var modFunc' := if pair in modFunc then modFunc else modFunc + [pair];
    PairsOfSnoc(modFunc, modFunc', pinModFunc, cand, pair);
    DistinctAppend(PairsOf(modFunc, pinModFunc), pair);
  }

  /** Growing the pair list at its end and adding candidate `cand` for `pair` extends the used pairs by `pair`. */
  lemma PairsOfSnoc(modFunc: seq<ModFunc>, modFunc': seq<ModFunc>, pinModFunc: seq<PinModFunc>, cand: PinModFunc, pair: ModFunc)
    requires forall k :: 0 <= k < |pinModFunc| ==> pinModFunc[k].modFuncKey < |modFunc|
    requires |modFunc| <= |modFunc'| && forall m :: 0 <= m < |modFunc| ==> modFunc'[m] == modFunc[m]
    requires cand.modFuncKey < |modFunc'| && modFunc'[cand.modFuncKey] == pair
    ensures forall k :: 0 <= k < |pinModFunc + [cand]| ==> (pinModFunc + [cand])[k].modFuncKey < |modFunc'|
    ensures PairsOf(modFunc', pinModFunc + [cand]) == PairsOf(modFunc, pinModFunc) + [pair]
  {
    var x := PairsOf(modFunc', pinModFunc + [cand]);
    var y := PairsOf(modFunc, pinModFunc) + [pair];
    forall k | 0 <= k < |x| ensures x[k] == y[k] {
      if k < |pinModFunc| {
        assert (pinModFunc + [cand])[k] == pinModFunc[k];
      }
    }
  }

  /** Candidates that came from their slots still do after the pair list grows at its end. */
  lemma CandidatesExtend(modules: seq<string>, functions: seq<string>, modFunc: seq<ModFunc>, modFunc': seq<ModFunc>,
                         pinModFunc: seq<PinModFunc>, done: seq<UsableSlot>, cand: PinModFunc, u: UsableSlot)
    requires |pinModFunc| == |done|
    requires forall k :: 0 <= k < |pinModFunc| ==> CandidateFromSlot(modules, functions, modFunc, pinModFunc[k], done[k])
    requires |modFunc| <= |modFunc'| && forall m :: 0 <= m < |modFunc| ==> modFunc'[m] == modFunc[m]
    requires CandidateFromSlot(modules, functions, modFunc', cand, u)
    ensures forall k :: 0 <= k < |pinModFunc| + 1 ==>
      CandidateFromSlot(modules, functions, modFunc', (pinModFunc + [cand])[k], (done + [u])[k])
  {
    forall k | 0 <= k < |pinModFunc| + 1
      ensures CandidateFromSlot(modules, functions, modFunc', (pinModFunc + [cand])[k], (done + [u])[k])
    {
      if k < |pinModFunc| {
        assert (pinModFunc + [cand])[k] == pinModFunc[k] && (done + [u])[k] == done[k];
        assert CandidateFromSlot(modules, functions, modFunc, pinModFunc[k], done[k]);
      }
    }
  }

  /**
   * The body of the slot loop for one usable slot: look up the module and function keys,
   * find the module-function pair or append it, and name the pair for the new candidate.
   */
  method AddSlot(modules: seq<string>, functions: seq<string>, modFunc: seq<ModFunc>,
                 pinModFunc: seq<PinModFunc>, ghost done: seq<UsableSlot>, u: UsableSlot)
    returns (modFunc': seq<ModFunc>, idx: nat)
    requires Progress(modules, functions, modFunc, pinModFunc, done)
    requires u.slot.moduleName in modules && u.slot.functionName in functions
    ensures Progress(modules, functions, modFunc', pinModFunc + [PinModFunc(u.row, idx)], done + [u])
  {
    var pair := ModFunc(IndexOf(modules, u.slot.moduleName), IndexOf(functions, u.slot.functionName));
    if pair in modFunc {
      idx := IndexOf(modFunc, pair);
      modFunc' := modFunc;
    } else {
      idx := |modFunc|;
      modFunc' := modFunc + [pair];
    }
    AddCandidate(modules, functions, modFunc, pinModFunc, done, u, pair, idx);
  }

  /** The usable slots of a row's first `j + 1` ALT columns extend those of its first `j`. */
  lemma RowSlotsStep(row: nat, alts: seq<Slot>, j: nat)
    requires j < |alts|
    ensures RowSlots(row, alts[..j + 1])
      == RowSlots(row, alts[..j]) + (if SlotUsable(alts[j]) then [UsableSlot(row, alts[j])] else [])
  {
    assert alts[..j + 1][..j] == alts[..j];
  }

  /** The usable slots of the first `i + 1` rows extend those of the first `i` by row `i`'s. */
  lemma UsableSlotsStep(rows: seq<RawRow>, i: nat)
    requires i < |rows|
    ensures UsableSlots(rows[..i + 1]) == UsableSlots(rows[..i]) + RowSlots(i, rows[i].alternatives)
  {
    assert rows[..i + 1][..i] == rows[..i];
  }

  lemma AppendAssoc<T>(a: seq<T>, b: seq<T>, c: seq<T>)
    ensures a + (b + c) == (a + b) + c
  {
  }

  /**
   * The slot loop for one raw row: for each ALT slot in order, skip it when its module or
   * its function is removable, otherwise add the candidate (row, pair).
   */
  method AddRowCandidates(t: RawTable, rowIdx: nat, modules: seq<string>, functions: seq<string>,
                          modFunc: seq<ModFunc>, pinModFunc: seq<PinModFunc>)
    returns (modFunc': seq<ModFunc>, pinModFunc': seq<PinModFunc>)
    requires Rectangular(t) && rowIdx < |t.rows|
    requires forall x :: x in ConcatColumns(t, t.width, ModulePart) && !IsRemovable(x) ==> x in modules
    requires forall x :: x in ConcatColumns(t, t.width, FunctionPart) && !IsRemovable(x) ==> x in functions
    requires Progress(modules, functions, modFunc, pinModFunc, UsableSlots(t.rows[..rowIdx]))
    ensures Progress(modules, functions, modFunc', pinModFunc', UsableSlots(t.rows[..rowIdx + 1]))
  {
    modFunc', pinModFunc' := modFunc, pinModFunc;
    var alts := t.rows[rowIdx].alternatives;
    ghost var before := UsableSlots(t.rows[..rowIdx]);
    for j := 0 to |alts|
      invariant Progress(modules, functions, modFunc', pinModFunc', before + RowSlots(rowIdx, alts[..j]))
    {
      ghost var done := before + RowSlots(rowIdx, alts[..j]);
      RowSlotsStep(rowIdx, alts, j);
      var slot := alts[j];
      ghost var added := if SlotUsable(slot) then [UsableSlot(rowIdx, slot)] else [];
      AppendAssoc(before, RowSlots(rowIdx, alts[..j]), added);
      if !(IsRemovable(slot.moduleName) || IsRemovable(slot.functionName)) {
        CellInColumns(t, t.width, ModulePart, rowIdx, j);
        CellInColumns(t, t.width, FunctionPart, rowIdx, j);
        var idx: nat;
        modFunc', idx := AddSlot(modules, functions, modFunc', pinModFunc', done, UsableSlot(rowIdx, slot));
        pinModFunc' := pinModFunc' + [PinModFunc(rowIdx, idx)];
      } else {
        assert done + added == done;
      }
    }
    assert alts[..|alts|] == alts;
    UsableSlotsStep(t.rows, rowIdx);
  }

  /**
   * `PinOptions.__init__`: the pins table (Comment '' when the column is absent), the
   * modules and functions tables, then, row by row and ALT slot by ALT slot, skipping
   * removable slots, a find-or-create of the module-function pair and one new candidate.
   */
  method BuildCatalog(t: RawTable) returns (c: Catalog)
    requires Rectangular(t)
    ensures |c.pins| == |t.rows|
    ensures forall i :: 0 <= i < |t.rows| ==> c.pins[i] == Pin(t.rows[i].boardPin, t.rows[i].mcuPin,
      if t.hasComment then t.rows[i].comment else "")
    ensures NameTable(ConcatColumns(t, t.width, ModulePart), c.modules)
    ensures NameTable(ConcatColumns(t, t.width, FunctionPart), c.functions)
    ensures Consistent(c)
    ensures c.modFunc == Distinct(UsedPairs(c))
    ensures |c.pinModFunc| == |UsableSlots(t.rows)|
    ensures forall k :: 0 <= k < |c.pinModFunc| ==>
      CandidateFromSlot(c.modules, c.functions, c.modFunc, c.pinModFunc[k], UsableSlots(t.rows)[k])
  {
    var pins := seq(|t.rows|, i requires 0 <= i < |t.rows| =>
      Pin(t.rows[i].boardPin, t.rows[i].mcuPin, if t.hasComment then t.rows[i].comment else ""));
    var modules := UsableNames(ConcatColumns(t, t.width, ModulePart));
    var functions := UsableNames(ConcatColumns(t, t.width, FunctionPart));
    var modFunc: seq<ModFunc> := [];
    var pinModFunc: seq<PinModFunc> := [];
    for rowIdx := 0 to |t.rows|
      invariant Progress(modules, functions, modFunc, pinModFunc, UsableSlots(t.rows[..rowIdx]))
    {
      modFunc, pinModFunc := AddRowCandidates(t, rowIdx, modules, functions, modFunc, pinModFunc);
    }
    assert t.rows[..|t.rows|] == t.rows;
    c := Catalog(pins, modules, functions, modFunc, pinModFunc);
    FinishCatalog(t.rows, c);
  }

  /** A loop state covering every usable slot, with duplicate-free name tables, is a consistent catalog. */
  lemma FinishCatalog(rows: seq<RawRow>, c: Catalog)
    requires |c.pins| == |rows| && NoDuplicates(c.modules) && NoDuplicates(c.functions)
    requires Progress(c.modules, c.functions, c.modFunc, c.pinModFunc, UsableSlots(rows))
    ensures Consistent(c) && c.modFunc == Distinct(UsedPairs(c))
  {
    var slots := UsableSlots(rows);
    UsableSlotsRows(rows);
    forall k | 0 <= k < |c.pinModFunc| ensures c.pinModFunc[k].pinKey < |c.pins| {
      assert c.pinModFunc[k].pinKey == slots[k].row && slots[k] in slots;
    }
    DistinctSpec(PairsOf(c.modFunc, c.pinModFunc));
  }
}
