/**
 * The allocation rules of pinmap/adapter.py, as functions of the catalog and the mapping
 * table: which keys are in use, which candidates a mapping row may choose from and how
 * they are tagged, how a selector value is resolved back to a candidate, and how a
 * change of one row updates the mapping, the primary flags and the bus locks.
 */
module Allocation {
  import opened Wrappers
  import opened Labels
  import opened PinOptions

  /**
   * One row of the mapping table: its grid position, signal and bus, the two regular
   * expressions restricting its choice, and the mapped label, the mapped candidate key
   * (-1 when nothing is mapped) and the Primary flag ('x' / '').
   */
  datatype MappingRow = MappingRow(
    column: string,
    gridRow: string,
    signal: string,
    bus: string,
    moduleRegex: string,
    functionRegex: string,
    mapped: string,
    key: int,
    primary: bool)

  const Unmapped: int := -1

  /** `names.str.contains(pattern, regex=True, na=False)` for one name and one pattern. */
  type Matcher = (string, string) -> bool

  /** One entry of the `buses` table: its member rows and the module it is locked to (-1: none). */
  datatype Bus = Bus(members: seq<nat>, moduleKey: int)

  /** Which half of a candidate a conflict is about. */
  datatype Kind = PinKind | ModFuncKind

  function KindName(kind: Kind): string
  {
    match kind
    case PinKind => "Pin"
    case ModFuncKind => "Func"
  }

  /** The pin key or the module-function key of candidate `key`. */
  function KeyOf(c: Catalog, key: nat, kind: Kind): nat
    requires key < |c.pinModFunc|
  {
    match kind
    case PinKind => c.pinModFunc[key].pinKey
    case ModFuncKind => c.pinModFunc[key].modFuncKey
  }

  /** The row is mapped to a candidate whose `kind` key is `k`. */
  predicate Uses(c: Catalog, row: MappingRow, kind: Kind, k: int)
  {
    0 <= row.key < |c.pinModFunc| && KeyOf(c, row.key, kind) == k
  }

  /** Every mapped key names a candidate. */
  predicate KeysInRange(c: Catalog, mapping: seq<MappingRow>)
  {
    forall r :: 0 <= r < |mapping| ==> mapping[r].key == Unmapped || 0 <= mapping[r].key < |c.pinModFunc|
  }

  // ----- searching -----

  /** The first index in [from, n) satisfying `p`. */
  function FirstIndex(n: nat, p: nat -> bool, from: nat): (r: Option<nat>)
    requires from <= n
    ensures r.Some? ==> from <= r.value < n && p(r.value)
    ensures r.Some? ==> forall j :: from <= j < r.value ==> !p(j)
    ensures r.None? ==> forall j :: from <= j < n ==> !p(j)
    decreases n - from
  {
    if from == n then None
    else if p(from) then Some(from)
    else FirstIndex(n, p, from + 1)
  }

  // ----- used keys -----

  /**
   * `_getUsedPinKeys(own)` / `_getUsedModFuncKeys(own)`: the pin (or module-function) key
   * of every mapped row, in mapping order, with every occurrence of `own` removed.
   */
  function UsedKeys(c: Catalog, mapping: seq<MappingRow>, kind: Kind, own: int): (used: seq<nat>)
    requires KeysInRange(c, mapping)
    ensures forall k :: k in used <==> k != own && exists r :: 0 <= r < |mapping| && Uses(c, mapping[r], kind, k)
  {
    if |mapping| == 0 then []
    else
      var front := mapping[..|mapping| - 1];
      assert forall r :: 0 <= r < |front| ==> front[r] == mapping[r];
      var rest := UsedKeys(c, front, kind, own);
      var row := mapping[|mapping| - 1];
      if row.key != Unmapped && KeyOf(c, row.key, kind) != own then rest + [KeyOf(c, row.key, kind)] else rest
  }

  // ----- conflict tags -----

  /** The row is a primary user of a candidate whose `kind` key is `k`. */
  predicate HoldsPrimary(c: Catalog, row: MappingRow, kind: Kind, k: nat)
  {
    row.primary && Uses(c, row, kind, k)
  }

  /**
   * The row `_generateConflictTags` names: the first row other than `self` that is
   * primary and mapped to a candidate whose `kind` key is `k`.
   */
  function PrimaryHolder(c: Catalog, mapping: seq<MappingRow>, kind: Kind, k: nat, self: nat): (h: Option<nat>)
    ensures h.Some? ==> h.value < |mapping| && h.value != self && HoldsPrimary(c, mapping[h.value], kind, k)
    ensures h.Some? ==> forall r :: 0 <= r < h.value && r != self ==> !HoldsPrimary(c, mapping[r], kind, k)
    ensures h.None? ==> forall r :: 0 <= r < |mapping| && r != self ==> !HoldsPrimary(c, mapping[r], kind, k)
  {
    var holds := (r: nat) => r < |mapping| && r != self && HoldsPrimary(c, mapping[r], kind, k);
    var h := FirstIndex(|mapping|, holds, 0);
    assert forall r :: 0 <= r < |mapping| ==> holds(r) == (r != self && HoldsPrimary(c, mapping[r], kind, k));
    h
  }

  /**
   * `_generateConflictTags`: "Pin>" or "Func>", the grid position of the primary holder,
   * "@bus" when the holder is on a bus, and ">> "; the empty string when there is no holder.
   */
  function ConflictTag(c: Catalog, mapping: seq<MappingRow>, kind: Kind, k: nat, self: nat): (tag: string)
    ensures tag == "" <==> PrimaryHolder(c, mapping, kind, k, self).None?
    ensures tag != "" ==> |tag| >= 3 && tag[|tag| - 3..] == TagEnd
    ensures tag != "" ==> |tag| > |KindName(kind)| && tag[..|KindName(kind)| + 1] == KindName(kind) + ">"
  {
    match PrimaryHolder(c, mapping, kind, k, self)
    case None => ""
    case Some(h) =>
      var holder := mapping[h];
      var busPart := if holder.bus != "" then "@" + holder.bus else "";
      KindName(kind) + ">" + holder.column + holder.gridRow + busPart + TagEnd
  }

  // ----- candidates a row may choose from -----

  /**
   * The keys `_updateSelectorOptions` keeps out of the used lists: none unless the row is
   * mapped and primary; then the module-function key only when the selector shows a pin
   * conflict, the pin key only when it shows a function conflict, else both.
   */
  function OwnKeys(c: Catalog, row: MappingRow, selectorValue: string): (own: (int, int))
    ensures !(row.primary && 0 <= row.key < |c.pinModFunc|) ==> own == (Unmapped, Unmapped)
    ensures own.0 != Unmapped ==> 0 <= row.key < |c.pinModFunc| && own.0 == c.pinModFunc[row.key].pinKey
    ensures own.1 != Unmapped ==> 0 <= row.key < |c.pinModFunc| && own.1 == c.pinModFunc[row.key].modFuncKey
    ensures Contains(selectorValue, "Pin>") ==> own.0 == Unmapped
    ensures Contains(selectorValue, "Func>") && !Contains(selectorValue, "Pin>") ==> own.1 == Unmapped
    ensures row.primary && 0 <= row.key < |c.pinModFunc| ==> own.0 != Unmapped || own.1 != Unmapped
  {
    if row.key != Unmapped && row.primary && 0 <= row.key < |c.pinModFunc| then
      var pinKey, modFuncKey := c.pinModFunc[row.key].pinKey, c.pinModFunc[row.key].modFuncKey;
      if Contains(selectorValue, "Pin>") then (Unmapped, modFuncKey)
      else if Contains(selectorValue, "Func>") then (pinKey, Unmapped)
      else (pinKey, modFuncKey)
    else (Unmapped, Unmapped)
  }

  /**
   * The allowed module keys: only the bus's module when the bus is locked; otherwise the
   * modules matching the row's module pattern, minus every bus's locked module when the
   * row is on a (non-empty) bus.
   */
  predicate ModuleAllowed(c: Catalog, matches: Matcher, row: MappingRow, buses: map<string, Bus>, m: nat)
    requires row.bus in buses
  {
    var lock := buses[row.bus].moduleKey;
    if lock >= 0 then m == lock
    else
      && m < |c.modules| && matches(c.modules[m], row.moduleRegex)
      && (row.bus != "" ==> forall b :: b in buses ==> buses[b].moduleKey != m)
  }

  predicate FunctionAllowed(c: Catalog, matches: Matcher, row: MappingRow, f: nat)
  {
    f < |c.functions| && matches(c.functions[f], row.functionRegex)
  }

  /** A candidate is offered when both its module and its function are allowed. */
  predicate CandidateAllowed(c: Catalog, matches: Matcher, row: MappingRow, buses: map<string, Bus>, k: nat)
    requires WellFormed(c) && row.bus in buses
  {
    && k < |c.pinModFunc|
    && var mf := c.modFunc[c.pinModFunc[k].modFuncKey];
    && ModuleAllowed(c, matches, row, buses, mf.moduleKey)
    && FunctionAllowed(c, matches, row, mf.functionKey)
  }

  /** `allowedPinModFuncKeys`, the candidates from index `from` on, in increasing order. */
  function AllowedFrom(c: Catalog, matches: Matcher, row: MappingRow, buses: map<string, Bus>, from: nat): (allowed: seq<nat>)
    requires WellFormed(c) && row.bus in buses && from <= |c.pinModFunc|
    ensures forall k :: k in allowed <==> from <= k < |c.pinModFunc| && CandidateAllowed(c, matches, row, buses, k)
    ensures forall i, j :: 0 <= i < j < |allowed| ==> allowed[i] < allowed[j]
    ensures forall i :: 0 <= i < |allowed| ==> from <= allowed[i]
    decreases |c.pinModFunc| - from
  {
    if from == |c.pinModFunc| then []
    else
      var rest := AllowedFrom(c, matches, row, buses, from + 1);
      if CandidateAllowed(c, matches, row, buses, from) then [from] + rest else rest
  }

  /** `allowedPinModFuncKeys`: exactly the allowed candidates, each once, in key order. */
  function AllowedCandidates(c: Catalog, matches: Matcher, row: MappingRow, buses: map<string, Bus>): (allowed: seq<nat>)
    requires WellFormed(c) && row.bus in buses
    ensures forall k: nat :: k in allowed <==> k < |c.pinModFunc| && CandidateAllowed(c, matches, row, buses, k)
    ensures forall i, j :: 0 <= i < j < |allowed| ==> allowed[i] < allowed[j]
    ensures forall i :: 0 <= i < |allowed| ==> allowed[i] < |c.pinModFunc|
  {
    var allowed := AllowedFrom(c, matches, row, buses, 0);
    assert forall i :: 0 <= i < |allowed| ==> allowed[i] in allowed;
    allowed
  }

  // ----- labels and their resolution -----

  /** The four fields a candidate is shown with. */
  function CandidateFields(c: Catalog, k: nat): PinFields
    requires WellFormed(c) && k < |c.pinModFunc|
  {
    var cand := c.pinModFunc[k];
    var pin := c.pins[cand.pinKey];
    var mf := c.modFunc[cand.modFuncKey];
    PinFields(pin.boardPin, pin.mcuPin, c.modules[mf.moduleKey], c.functions[mf.functionKey])
  }

  /** `"{:<6} - {:<5} - {} - {}"` of the candidate's fields. */
  function CandidateLabel(c: Catalog, k: nat): string
    requires WellFormed(c) && k < |c.pinModFunc|
  {
    var f := CandidateFields(c, k);
    FormatOption(f.boardPin, f.mcuPin, f.moduleName, f.functionName)
  }

  /**
   * The conflict prefix of a candidate: the pin tag when its pin is in use, otherwise the
   * module-function tag when its pair is in use (a pin conflict overrules a function one).
   */
  function CandidatePrefix(c: Catalog, mapping: seq<MappingRow>, self: nat, usedPins: seq<nat>,
                           usedModFuncs: seq<nat>, k: nat): (tag: string)
    requires WellFormed(c) && k < |c.pinModFunc|
    ensures c.pinModFunc[k].pinKey !in usedPins && c.pinModFunc[k].modFuncKey !in usedModFuncs ==> tag == ""
    ensures tag != "" ==> |tag| >= 3 && tag[|tag| - 3..] == TagEnd
  {
    var pinKey, modFuncKey := c.pinModFunc[k].pinKey, c.pinModFunc[k].modFuncKey;
    var pinTag := if pinKey in usedPins then ConflictTag(c, mapping, PinKind, pinKey, self) else "";
    if modFuncKey in usedModFuncs && pinTag == "" then ConflictTag(c, mapping, ModFuncKind, modFuncKey, self)
    else pinTag
  }

  /** `menuOptions` of `_updateSelectorOptions` for row `self` showing `selectorValue`. */
  function MenuOptions(c: Catalog, matches: Matcher, mapping: seq<MappingRow>, buses: map<string, Bus>,
                       self: nat, selectorValue: string): (menu: seq<string>)
    requires WellFormed(c) && KeysInRange(c, mapping) && self < |mapping| && mapping[self].bus in buses
    ensures |menu| == |AllowedCandidates(c, matches, mapping[self], buses)| + 1 && menu[0] == ""
  {
    var row := mapping[self];
    var own := OwnKeys(c, row, selectorValue);
    var usedPins := UsedKeys(c, mapping, PinKind, own.0);
    var usedModFuncs := UsedKeys(c, mapping, ModFuncKind, own.1);
    var allowed := AllowedCandidates(c, matches, row, buses);
    [""] + Entries(c, mapping, self, usedPins, usedModFuncs, allowed)
  }

  /** The menu entries of the candidates `keys`, in order. */
  function Entries(c: Catalog, mapping: seq<MappingRow>, self: nat, usedPins: seq<nat>,
                   usedModFuncs: seq<nat>, keys: seq<nat>): (entries: seq<string>)
    requires WellFormed(c) && forall j :: 0 <= j < |keys| ==> keys[j] < |c.pinModFunc|
    ensures |entries| == |keys|
    ensures forall j :: 0 <= j < |keys| ==> entries[j] == MenuEntry(c, mapping, self, usedPins, usedModFuncs, keys[j])
  {
    seq(|keys|, j requires 0 <= j < |keys| => MenuEntry(c, mapping, self, usedPins, usedModFuncs, keys[j]))
  }

  /** One menu entry: the candidate's conflict tag followed by its label. */
  function MenuEntry(c: Catalog, mapping: seq<MappingRow>, self: nat, usedPins: seq<nat>,
                     usedModFuncs: seq<nat>, k: nat): string
    requires WellFormed(c) && k < |c.pinModFunc|
  {
    CandidatePrefix(c, mapping, self, usedPins, usedModFuncs, k) + CandidateLabel(c, k)
  }

  /** The (Board-Pin, MCU-Pin) identity of each pin. */
  function PinIds(c: Catalog): (ids: seq<(string, string)>)
    ensures |ids| == |c.pins|
    ensures forall i :: 0 <= i < |c.pins| ==> ids[i] == (c.pins[i].boardPin, c.pins[i].mcuPin)
  {
    seq(|c.pins|, i requires 0 <= i < |c.pins| => (c.pins[i].boardPin, c.pins[i].mcuPin))
  }

  /**
   * The lookups shared by `selectorChangeUpdateMapping` and `_updatePrimary`: the first pin
   * with that Board-Pin and MCU-Pin, the module and function by name, and their pair.
   * None where a lookup finds nothing, where the source's `.index[0]` raises.
   */
  function ResolveKeys(c: Catalog, f: PinFields): (r: Option<(nat, nat)>)
    requires WellFormed(c)
    ensures r.Some? ==> r.value.0 < |c.pins| && r.value.1 < |c.modFunc|
  {
    var id := (f.boardPin, f.mcuPin);
    if id !in PinIds(c) || f.moduleName !in c.modules || f.functionName !in c.functions then None
    else
      var pair := ModFunc(IndexOf(c.modules, f.moduleName), IndexOf(c.functions, f.functionName));
      if pair !in c.modFunc then None
      else Some((IndexOf(PinIds(c), id), IndexOf(c.modFunc, pair)))
  }

  /**
   * The candidate key `selectorChangeUpdateMapping` stores for a selector value: split the
   * value, resolve its keys, then the first candidate with that pin and that pair.
   */
  function ResolveLabel(c: Catalog, value: string): (r: Option<nat>)
    requires WellFormed(c)
    ensures r.Some? ==> r.value < |c.pinModFunc| && SplitSelectorValue(value) == Some(CandidateFields(c, r.value))
  {
    match SplitSelectorValue(value)
    case None => None
    case Some(f) =>
      match ResolveKeys(c, f)
      case None => None
      case Some(keys) =>
        var cand := PinModFunc(keys.0, keys.1);
        if cand in c.pinModFunc then Some(IndexOf(c.pinModFunc, cand)) else None
  }

  // ----- assigning a candidate to a row -----

  /** The number of rows mapped to a candidate whose `kind` key is `k`. */
  function CountUsers(c: Catalog, mapping: seq<MappingRow>, kind: Kind, k: nat): nat
  {
    if |mapping| == 0 then 0
    else CountUsers(c, mapping[..|mapping| - 1], kind, k) + (if Uses(c, mapping[|mapping| - 1], kind, k) then 1 else 0)
  }

  lemma {:induction false} CountUsersPositive(c: Catalog, mapping: seq<MappingRow>, kind: Kind, k: nat)
    ensures CountUsers(c, mapping, kind, k) > 0 <==> exists r :: 0 <= r < |mapping| && Uses(c, mapping[r], kind, k)
  {
    if |mapping| > 0 {
      var front := mapping[..|mapping| - 1];
      CountUsersPositive(c, front, kind, k);
      assert forall r :: 0 <= r < |front| ==> front[r] == mapping[r];
    }
  }

  /** With row `self` a user, more than one user means some other row is one too. */
  lemma {:induction false} CountUsersOthers(c: Catalog, mapping: seq<MappingRow>, kind: Kind, k: nat, self: nat)
    requires self < |mapping| && Uses(c, mapping[self], kind, k)
    ensures CountUsers(c, mapping, kind, k) > 1
      <==> exists r :: 0 <= r < |mapping| && r != self && Uses(c, mapping[r], kind, k)
  {
    var front := mapping[..|mapping| - 1];
    assert forall r :: 0 <= r < |front| ==> front[r] == mapping[r];
    if self == |mapping| - 1 {
      CountUsersPositive(c, front, kind, k);
    } else {
      CountUsersOthers(c, front, kind, k, self);
      CountUsersPositive(c, front, kind, k);
    }
  }

  /** A cleared row: no label, key -1, not primary. */
  function Cleared(row: MappingRow): (r: MappingRow)
    ensures r.key == Unmapped && !r.primary && r.mapped == ""
    ensures r.column == row.column && r.gridRow == row.gridRow && r.signal == row.signal && r.bus == row.bus
    ensures r.moduleRegex == row.moduleRegex && r.functionRegex == row.functionRegex
  {
    row.(mapped := "", key := Unmapped, primary := false)
  }

  /**
   * The mapping after row `self` takes candidate `k` shown as `value`: the label and the key
   * are stored, and the row is primary unless more than one row now uses the candidate's
   * pin or the candidate's module-function pair.
   */
  function Assign(c: Catalog, mapping: seq<MappingRow>, self: nat, value: string, k: nat): (m: seq<MappingRow>)
    requires self < |mapping| && k < |c.pinModFunc|
    ensures |m| == |mapping| && m[self].key == k && m[self].mapped == value
    ensures m[self] == mapping[self].(mapped := value, key := k, primary := m[self].primary)
    ensures forall i :: 0 <= i < |mapping| && i != self ==> m[i] == mapping[i]
  {
    var m1 := mapping[self := mapping[self].(mapped := value, key := k)];
    var shared := CountUsers(c, m1, PinKind, c.pinModFunc[k].pinKey) > 1
      || CountUsers(c, m1, ModFuncKind, c.pinModFunc[k].modFuncKey) > 1;
    m1[self := m1[self].(primary := !shared)]
  }

  /** A newly assigned row is primary exactly when no other row uses its pin or its pair. */
  lemma AssignPrimaryIffSole(c: Catalog, mapping: seq<MappingRow>, self: nat, value: string, k: nat)
    requires self < |mapping| && k < |c.pinModFunc|
    ensures Assign(c, mapping, self, value, k)[self].primary <==>
      forall r :: 0 <= r < |mapping| && r != self ==>
        !Uses(c, mapping[r], PinKind, c.pinModFunc[k].pinKey)
        && !Uses(c, mapping[r], ModFuncKind, c.pinModFunc[k].modFuncKey)
  {
    var m1 := mapping[self := mapping[self].(mapped := value, key := k)];
    CountUsersOthers(c, m1, PinKind, c.pinModFunc[k].pinKey, self);
    CountUsersOthers(c, m1, ModFuncKind, c.pinModFunc[k].modFuncKey, self);
    assert forall r :: 0 <= r < |mapping| && r != self ==> m1[r] == mapping[r];
  }

  // ----- moving the primary flag -----

  /** The first row mapped to a candidate whose `kind` key is `k`. */
  function FirstUser(c: Catalog, mapping: seq<MappingRow>, kind: Kind, k: nat): (h: Option<nat>)
    ensures h.Some? ==> h.value < |mapping| && Uses(c, mapping[h.value], kind, k)
    ensures h.Some? ==> forall r :: 0 <= r < h.value ==> !Uses(c, mapping[r], kind, k)
    ensures h.None? ==> forall r :: 0 <= r < |mapping| ==> !Uses(c, mapping[r], kind, k)
  {
    var uses := (r: nat) => r < |mapping| && Uses(c, mapping[r], kind, k);
    var h := FirstIndex(|mapping|, uses, 0);
    assert forall r :: 0 <= r < |mapping| ==> uses(r) == Uses(c, mapping[r], kind, k);
    h
  }

  /** The row that inherits the primary flag, when there is one. */
  function Heir(c: Catalog, mapping: seq<MappingRow>, oldPin: nat, oldModFunc: nat): (h: Option<nat>)
    requires KeysInRange(c, mapping)
    ensures h.Some? ==> h.value < |mapping|
    ensures h.Some? ==> (Uses(c, mapping[h.value], PinKind, oldPin) || Uses(c, mapping[h.value], ModFuncKind, oldModFunc))
  {
    if oldPin in UsedKeys(c, mapping, PinKind, Unmapped) then FirstUser(c, mapping, PinKind, oldPin)
    else if oldModFunc in UsedKeys(c, mapping, ModFuncKind, Unmapped) then FirstUser(c, mapping, ModFuncKind, oldModFunc)
    else None
  }

  /** Row `h` becomes primary and its stored label loses its conflict tag. */
  function MakePrimary(mapping: seq<MappingRow>, h: nat): (m: seq<MappingRow>)
    requires h < |mapping|
    ensures |m| == |mapping| && m[h].primary && m[h].mapped == RemoveSharedPrefix(mapping[h].mapped)
    ensures m[h] == mapping[h].(primary := true, mapped := m[h].mapped)
    ensures forall i :: 0 <= i < |mapping| && i != h ==> m[i] == mapping[i]
  {
    mapping[h := mapping[h].(primary := true, mapped := RemoveSharedPrefix(mapping[h].mapped))]
  }

  /**
   * `_updatePrimary`: resolve the pin and the pair of the old label; the first row still
   * using that pin, or else the first row still using that pair, becomes primary.
   * None where the old label cannot be resolved, where the source raises.
   */
  function Promote(c: Catalog, mapping: seq<MappingRow>, oldLabel: string): (r: Option<seq<MappingRow>>)
    requires WellFormed(c) && KeysInRange(c, mapping)
    ensures r.Some? ==> |r.value| == |mapping|
    ensures r.Some? ==> forall i :: 0 <= i < |mapping| ==> r.value[i].key == mapping[i].key && r.value[i].bus == mapping[i].bus
  {
    match SplitSelectorValue(oldLabel)
    case None => None
    case Some(f) =>
      match ResolveKeys(c, f)
      case None => None
      case Some(keys) =>
        match Heir(c, mapping, keys.0, keys.1)
        case None => Some(mapping)
        case Some(h) => Some(MakePrimary(mapping, h))
  }

  /**
   * While the old pin is still in use, some row using it ends primary; while only the old
   * pair is, some row using the pair does.
   */
  lemma PromoteKeepsAPrimary(c: Catalog, mapping: seq<MappingRow>, oldLabel: string, pin: nat, modFunc: nat)
    requires WellFormed(c) && KeysInRange(c, mapping)
    requires SplitSelectorValue(oldLabel).Some? && ResolveKeys(c, SplitSelectorValue(oldLabel).value) == Some((pin, modFunc))
    ensures Promote(c, mapping, oldLabel).Some?
    ensures var m := Promote(c, mapping, oldLabel).value;
      && ((exists r :: 0 <= r < |mapping| && Uses(c, mapping[r], PinKind, pin)) ==>
            exists r :: 0 <= r < |m| && m[r].primary && Uses(c, m[r], PinKind, pin))
      && ((exists r :: 0 <= r < |mapping| && Uses(c, mapping[r], ModFuncKind, modFunc)) ==>
            exists r :: 0 <= r < |m| && m[r].primary
              && (Uses(c, m[r], ModFuncKind, modFunc) || Uses(c, m[r], PinKind, pin)))
  {
    var heir := Heir(c, mapping, pin, modFunc);
    assert Promote(c, mapping, oldLabel) == if heir.Some? then Some(MakePrimary(mapping, heir.value)) else Some(mapping);
    HeirUses(c, mapping, pin, modFunc);
    if heir.Some? {
      var h := heir.value;
      var m := MakePrimary(mapping, h);
      assert m[h].primary && m[h].key == mapping[h].key;
    }
  }

  /**
   * The heir uses the old pin or the old pair; it uses the pin whenever some row does,
   * and there is one whenever some row uses the pair.
   */
  lemma HeirUses(c: Catalog, mapping: seq<MappingRow>, pin: nat, modFunc: nat)
    requires KeysInRange(c, mapping)
    ensures var h := Heir(c, mapping, pin, modFunc);
      && (h.Some? ==>
            h.value < |mapping| && (Uses(c, mapping[h.value], PinKind, pin) || Uses(c, mapping[h.value], ModFuncKind, modFunc)))
      && ((exists r :: 0 <= r < |mapping| && Uses(c, mapping[r], PinKind, pin)) ==>
            h.Some? && Uses(c, mapping[h.value], PinKind, pin))
      && ((exists r :: 0 <= r < |mapping| && Uses(c, mapping[r], ModFuncKind, modFunc)) ==> h.Some?)
  {
    var pinUsed := pin in UsedKeys(c, mapping, PinKind, Unmapped);
    var pairUsed := modFunc in UsedKeys(c, mapping, ModFuncKind, Unmapped);
    if pinUsed {
      var r :| 0 <= r < |mapping| && Uses(c, mapping[r], PinKind, pin);
      assert FirstUser(c, mapping, PinKind, pin).Some?;
    } else if pairUsed {
      var r :| 0 <= r < |mapping| && Uses(c, mapping[r], ModFuncKind, modFunc);
      assert FirstUser(c, mapping, ModFuncKind, modFunc).Some?;
    }
  }

  // ----- bus locks -----

  /** The rows of the mapping on `bus`, in mapping order: the `Members` list. */
  function BusMembers(mapping: seq<MappingRow>, bus: string, from: nat): seq<nat>
    requires from <= |mapping|
    decreases |mapping| - from
  {
    if from == |mapping| then []
    else (if mapping[from].bus == bus then [from] else []) + BusMembers(mapping, bus, from + 1)
  }

  /** The members are exactly the rows from `from` on that are on `bus`, in increasing order. */
  lemma BusMembersSpec(mapping: seq<MappingRow>, bus: string, from: nat)
    requires from <= |mapping|
    ensures var members := BusMembers(mapping, bus, from);
      && (forall r :: r in members <==> from <= r < |mapping| && mapping[r].bus == bus)
      && (forall i :: 0 <= i < |members| ==> from <= members[i] < |mapping| && mapping[members[i]].bus == bus)
      && (forall i, j :: 0 <= i < j < |members| ==> members[i] < members[j])
  {
    BusMembersIn(mapping, bus, from);
    BusMembersRows(mapping, bus, from);
    BusMembersSorted(mapping, bus, from);
  }

  /** One step of the member scan at row `from`. */
  lemma MembersUnfold(mapping: seq<MappingRow>, bus: string, from: nat)
    requires from < |mapping|
    ensures BusMembers(mapping, bus, from)
      == (if mapping[from].bus == bus then [from] else []) + BusMembers(mapping, bus, from + 1)
  {
  }

  lemma {:induction false} BusMembersIn(mapping: seq<MappingRow>, bus: string, from: nat)
    requires from <= |mapping|
    ensures forall r :: r in BusMembers(mapping, bus, from) <==> from <= r < |mapping| && mapping[r].bus == bus
    decreases |mapping| - from
  {
    if from < |mapping| {
      BusMembersIn(mapping, bus, from + 1);
      MembersUnfold(mapping, bus, from);
    }
  }

  lemma {:induction false} BusMembersRows(mapping: seq<MappingRow>, bus: string, from: nat)
    requires from <= |mapping|
    ensures var members := BusMembers(mapping, bus, from);
      forall i :: 0 <= i < |members| ==> from <= members[i] < |mapping| && mapping[members[i]].bus == bus
    decreases |mapping| - from
  {
    if from < |mapping| {
      BusMembersRows(mapping, bus, from + 1);
      MembersUnfold(mapping, bus, from);
      var head := if mapping[from].bus == bus then [from] else [];
      var rest := BusMembers(mapping, bus, from + 1);
      var members := head + rest;
      forall i | 0 <= i < |members| ensures from <= members[i] < |mapping| && mapping[members[i]].bus == bus {
        if i >= |head| {
          assert members[i] == rest[i - |head|];
        }
      }
    }
  }

  lemma {:induction false} BusMembersSorted(mapping: seq<MappingRow>, bus: string, from: nat)
    requires from <= |mapping|
    ensures var members := BusMembers(mapping, bus, from);
      forall i, j :: 0 <= i < j < |members| ==> members[i] < members[j]
    decreases |mapping| - from
  {
    if from < |mapping| {
      BusMembersSorted(mapping, bus, from + 1);
      BusMembersRows(mapping, bus, from + 1);
      MembersUnfold(mapping, bus, from);
      var head := if mapping[from].bus == bus then [from] else [];
      var rest := BusMembers(mapping, bus, from + 1);
      var members := head + rest;
      forall i, j | 0 <= i < j < |members| ensures members[i] < members[j] {
        assert members[j] == rest[j - |head|];
        if i >= |head| {
          assert members[i] == rest[i - |head|];
        }
      }
    }
  }

  /** The module of candidate `key`. */
  function ModuleOf(c: Catalog, key: nat): nat
    requires WellFormed(c) && key < |c.pinModFunc|
  {
    c.modFunc[c.pinModFunc[key].modFuncKey].moduleKey
  }

  /** `members[i]` is the first member of the list mapped to a candidate. */
  predicate FirstMappedAt(mapping: seq<MappingRow>, members: seq<nat>, i: nat)
    requires forall j :: 0 <= j < |members| ==> members[j] < |mapping|
  {
    && i < |members| && mapping[members[i]].key != Unmapped
    && forall j :: 0 <= j < i ==> mapping[members[j]].key == Unmapped
  }

  /** `_updateBusModuleKey`'s scan: the module of the first mapped member, -1 when none is. */
  function MembersModule(c: Catalog, mapping: seq<MappingRow>, members: seq<nat>): (m: int)
    requires WellFormed(c) && KeysInRange(c, mapping)
    requires forall i :: 0 <= i < |members| ==> members[i] < |mapping|
    ensures m == Unmapped <==> forall i :: 0 <= i < |members| ==> mapping[members[i]].key == Unmapped
    ensures m != Unmapped ==> exists i: nat :: FirstMappedAt(mapping, members, i) && m == ModuleOf(c, mapping[members[i]].key)
  {
    if |members| == 0 then Unmapped
    else if mapping[members[0]].key != Unmapped then
      assert FirstMappedAt(mapping, members, 0);
      ModuleOf(c, mapping[members[0]].key)
    else
      var m := MembersModule(c, mapping, members[1..]);
      assert forall i :: 1 <= i < |members| ==> members[i] == members[1..][i - 1];
      FirstMappedShift(mapping, members);
      m
  }

  /** Behind an unmapped head, the first mapped member of the tail is the first of the whole list. */
  lemma FirstMappedShift(mapping: seq<MappingRow>, members: seq<nat>)
    requires forall j :: 0 <= j < |members| ==> members[j] < |mapping|
    requires |members| > 0 && mapping[members[0]].key == Unmapped
    ensures forall i: nat :: FirstMappedAt(mapping, members[1..], i) ==> FirstMappedAt(mapping, members, i + 1)
  {
    forall i: nat | FirstMappedAt(mapping, members[1..], i) ensures FirstMappedAt(mapping, members, i + 1) {
      assert members[i + 1] == members[1..][i];
      forall j | 0 <= j < i + 1 ensures mapping[members[j]].key == Unmapped {
        if j > 0 {
          assert members[j] == members[1..][j - 1];
        }
      }
    }
  }

  /** Every row's bus is in the table, whose member lists are the rows on each bus. */
  predicate BusTable(mapping: seq<MappingRow>, buses: map<string, Bus>)
  {
    && (forall r :: 0 <= r < |mapping| ==> mapping[r].bus in buses)
    && (forall b :: b in buses ==> buses[b].members == BusMembers(mapping, b, 0))
  }

  /** Every row's bus is in the table and every member names a row. */
  predicate BusesFit(mapping: seq<MappingRow>, buses: map<string, Bus>)
  {
    && (forall r :: 0 <= r < |mapping| ==> mapping[r].bus in buses)
    && (forall b, i :: b in buses && 0 <= i < |buses[b].members| ==> buses[b].members[i] < |mapping|)
  }

  lemma TableFits(mapping: seq<MappingRow>, buses: map<string, Bus>)
    requires BusTable(mapping, buses)
    ensures BusesFit(mapping, buses)
  {
    forall b | b in buses ensures forall i :: 0 <= i < |buses[b].members| ==> buses[b].members[i] < |mapping| {
      BusMembersSpec(mapping, b, 0);
    }
  }

  /**
   * `_updateBusModuleKey` after a change of row `self`: the row's bus, unless it is the
   * empty bus, is locked to the module of its first mapped member.
   */
  function UpdateBus(c: Catalog, mapping: seq<MappingRow>, buses: map<string, Bus>, self: nat): (r: map<string, Bus>)
    requires WellFormed(c) && KeysInRange(c, mapping) && self < |mapping| && BusesFit(mapping, buses)
    ensures r.Keys == buses.Keys
  {
    var b := mapping[self].bus;
    if b == "" then buses
    else buses[b := buses[b].(moduleKey := MembersModule(c, mapping, buses[b].members))]
  }

  // ----- one selector change -----

  /** The mapping and buses after a change, and whether the source raised on the way. */
  datatype Outcome = Outcome(mapping: seq<MappingRow>, buses: map<string, Bus>, raised: bool)

  /** The tail of `selectorChangeUpdateMapping`: move the primary flag if the row had it, then update the bus. */
  function AfterPrimary(c: Catalog, m1: seq<MappingRow>, buses: map<string, Bus>, self: nat, oldRow: MappingRow): (o: Outcome)
    requires WellFormed(c) && KeysInRange(c, m1) && self < |m1| && BusesFit(m1, buses)
    ensures o.raised <==> oldRow.primary && Promote(c, m1, oldRow.mapped).None?
    ensures o.raised ==> o.mapping == m1 && o.buses == buses
    ensures !oldRow.primary ==> o.mapping == m1
    ensures |o.mapping| == |m1| && o.buses.Keys == buses.Keys && o.mapping[self].key == m1[self].key
  {
    if !oldRow.primary then Outcome(m1, UpdateBus(c, m1, buses, self), false)
    else
      match Promote(c, m1, oldRow.mapped)
      case None => Outcome(m1, buses, true)
      case Some(m2) => Outcome(m2, UpdateBus(c, m2, buses, self), false)
  }

  lemma {:induction false} SameBusesSameMembers(m1: seq<MappingRow>, m2: seq<MappingRow>, bus: string, from: nat)
    requires |m1| == |m2| && from <= |m1|
    requires forall i :: 0 <= i < |m1| ==> m1[i].bus == m2[i].bus
    ensures BusMembers(m1, bus, from) == BusMembers(m2, bus, from)
    decreases |m1| - from
  {
    if from < |m1| {
      SameBusesSameMembers(m1, m2, bus, from + 1);
      MembersUnfold(m1, bus, from);
      MembersUnfold(m2, bus, from);
    }
  }

  /**
   * `selectorChangeUpdateMapping` for row `self` whose selector now shows `value`: an empty
   * value clears the row; otherwise the value is resolved and assigned (the source raises
   * when it does not resolve); then the primary flag and the bus lock are updated.
   */
  function ApplyChange(c: Catalog, mapping: seq<MappingRow>, buses: map<string, Bus>, self: nat, value: string): (o: Outcome)
    requires WellFormed(c) && KeysInRange(c, mapping) && self < |mapping| && BusesFit(mapping, buses)
    ensures |o.mapping| == |mapping| && o.buses.Keys == buses.Keys
    ensures value != "" && ResolveLabel(c, value).None? ==> o == Outcome(mapping, buses, true)
    ensures value == "" ==> o.mapping[self].key == Unmapped
    ensures value != "" && ResolveLabel(c, value).Some? ==> o.mapping[self].key == ResolveLabel(c, value).value
  {
    var row := mapping[self];
    if value == "" then
      AfterPrimary(c, mapping[self := Cleared(row)], buses, self, row)
    else
      match ResolveLabel(c, value)
      case None => Outcome(mapping, buses, true)
      case Some(k) => AfterPrimary(c, Assign(c, mapping, self, value, k), buses, self, row)
  }

  /** Rewriting row `self` without touching its bus keeps the table shape. */
  lemma RowRewriteKeeps(c: Catalog, mapping: seq<MappingRow>, buses: map<string, Bus>, self: nat, m1: seq<MappingRow>)
    requires KeysInRange(c, mapping) && self < |mapping| && BusTable(mapping, buses)
    requires |m1| == |mapping| && m1[self].bus == mapping[self].bus
    requires m1[self].key == Unmapped || 0 <= m1[self].key < |c.pinModFunc|
    requires forall i :: 0 <= i < |mapping| && i != self ==> m1[i] == mapping[i]
    ensures KeysInRange(c, m1) && BusTable(m1, buses)
  {
    SameBusesSameMembersAll(mapping, m1, buses);
  }

  /** A change keeps the table shape: row count, key ranges, bus membership. */
  lemma ApplyChangeKeepsTables(c: Catalog, mapping: seq<MappingRow>, buses: map<string, Bus>, self: nat, value: string)
    requires WellFormed(c) && KeysInRange(c, mapping) && self < |mapping| && BusTable(mapping, buses)
    ensures BusesFit(mapping, buses)
    ensures var o := ApplyChange(c, mapping, buses, self, value);
      |o.mapping| == |mapping| && KeysInRange(c, o.mapping) && BusTable(o.mapping, o.buses)
      && forall i :: 0 <= i < |mapping| && i != self ==> o.mapping[i].key == mapping[i].key
  {
    TableFits(mapping, buses);
    var row := mapping[self];
    if value == "" {
      var m1 := mapping[self := Cleared(row)];
      RowRewriteKeeps(c, mapping, buses, self, m1);
      AfterPrimaryKeeps(c, m1, buses, self, row);
    } else if ResolveLabel(c, value).Some? {
      var m1 := Assign(c, mapping, self, value, ResolveLabel(c, value).value);
      RowRewriteKeeps(c, mapping, buses, self, m1);
      AfterPrimaryKeeps(c, m1, buses, self, row);
    }
  }

  lemma SameBusesSameMembersAll(m1: seq<MappingRow>, m2: seq<MappingRow>, buses: map<string, Bus>)
    requires |m1| == |m2| && forall i :: 0 <= i < |m1| ==> m1[i].bus == m2[i].bus
    requires BusTable(m1, buses)
    ensures BusTable(m2, buses)
  {
    forall b | b in buses ensures buses[b].members == BusMembers(m2, b, 0) {
      SameBusesSameMembers(m1, m2, b, 0);
    }
  }

  lemma UpdateBusKeepsTable(c: Catalog, mapping: seq<MappingRow>, buses: map<string, Bus>, self: nat)
    requires WellFormed(c) && KeysInRange(c, mapping) && self < |mapping| && BusTable(mapping, buses)
    ensures BusesFit(mapping, buses) && BusTable(mapping, UpdateBus(c, mapping, buses, self))
  {
    TableFits(mapping, buses);
    var r := UpdateBus(c, mapping, buses, self);
    forall b | b in r ensures r[b].members == buses[b].members {
    }
  }

  lemma AfterPrimaryKeeps(c: Catalog, m1: seq<MappingRow>, buses: map<string, Bus>, self: nat, oldRow: MappingRow)
    requires WellFormed(c) && KeysInRange(c, m1) && self < |m1| && BusTable(m1, buses)
    ensures BusesFit(m1, buses)
    ensures var o := AfterPrimary(c, m1, buses, self, oldRow);
      |o.mapping| == |m1| && KeysInRange(c, o.mapping) && BusTable(o.mapping, o.buses)
      && forall i :: 0 <= i < |m1| ==> o.mapping[i].key == m1[i].key && o.mapping[i].bus == m1[i].bus
  {
    TableFits(m1, buses);
    var o := AfterPrimary(c, m1, buses, self, oldRow);
    if !oldRow.primary {
      UpdateBusKeepsTable(c, m1, buses, self);
    } else {
      match Promote(c, m1, oldRow.mapped)
      case None =>
      case Some(m2) =>
        assert o.mapping == m2;
        SameBusesSameMembersAll(m1, m2, buses);
        UpdateBusKeepsTable(c, m2, buses, self);
    }
  }

  // ----- labels stay resolvable -----

  /** Every mapped row's label resolves to its key, and an unmapped row has no label. */
  predicate LabelsAgree(c: Catalog, mapping: seq<MappingRow>)
    requires WellFormed(c)
  {
    forall r :: 0 <= r < |mapping| ==>
      && (mapping[r].key == Unmapped ==> mapping[r].mapped == "")
      && (mapping[r].key != Unmapped ==> ResolveLabel(c, mapping[r].mapped) == Some(mapping[r].key))
  }

  /** A conflict tag does not change what a label resolves to. */
  lemma ResolveIgnoresTag(c: Catalog, value: string)
    requires WellFormed(c)
    ensures ResolveLabel(c, RemoveSharedPrefix(value)) == ResolveLabel(c, value)
  {
    SplitIgnoresTag(value);
  }

  lemma PromoteKeepsLabels(c: Catalog, mapping: seq<MappingRow>, oldLabel: string)
    requires WellFormed(c) && KeysInRange(c, mapping) && LabelsAgree(c, mapping)
    requires Promote(c, mapping, oldLabel).Some?
    ensures LabelsAgree(c, Promote(c, mapping, oldLabel).value)
  {
    var f := SplitSelectorValue(oldLabel).value;
    var keys := ResolveKeys(c, f).value;
    match Heir(c, mapping, keys.0, keys.1)
    case None =>
    case Some(h) =>
      ResolveIgnoresTag(c, mapping[h].mapped);
      assert Promote(c, mapping, oldLabel).value == MakePrimary(mapping, h);
  }

  lemma AfterPrimaryKeepsLabels(c: Catalog, m1: seq<MappingRow>, buses: map<string, Bus>, self: nat, oldRow: MappingRow)
    requires WellFormed(c) && KeysInRange(c, m1) && self < |m1| && BusesFit(m1, buses) && LabelsAgree(c, m1)
    ensures LabelsAgree(c, AfterPrimary(c, m1, buses, self, oldRow).mapping)
  {
    if oldRow.primary && Promote(c, m1, oldRow.mapped).Some? {
      PromoteKeepsLabels(c, m1, oldRow.mapped);
    }
  }

  /** A change keeps every mapped label resolving to its row's key. */
  lemma ApplyChangeKeepsLabels(c: Catalog, mapping: seq<MappingRow>, buses: map<string, Bus>, self: nat, value: string)
    requires WellFormed(c) && KeysInRange(c, mapping) && self < |mapping| && BusTable(mapping, buses)
    requires LabelsAgree(c, mapping)
    ensures BusesFit(mapping, buses)
    ensures LabelsAgree(c, ApplyChange(c, mapping, buses, self, value).mapping)
  {
    TableFits(mapping, buses);
    var row := mapping[self];
    if value == "" {
      var m1 := mapping[self := Cleared(row)];
      RowRewriteKeeps(c, mapping, buses, self, m1);
      TableFits(m1, buses);
      AfterPrimaryKeepsLabels(c, m1, buses, self, row);
    } else if ResolveLabel(c, value).Some? {
      var m1 := Assign(c, mapping, self, value, ResolveLabel(c, value).value);
      RowRewriteKeeps(c, mapping, buses, self, m1);
      TableFits(m1, buses);
      AfterPrimaryKeepsLabels(c, m1, buses, self, row);
    }
  }

  // ----- labels round-trip to candidates -----

  /** No name holds a space or a '>', so padding and tags can be told apart from names. */
  predicate PlainCatalog(c: Catalog)
  {
    && (forall p :: 0 <= p < |c.pins| ==> Plain(c.pins[p].boardPin) && Plain(c.pins[p].mcuPin))
    && (forall m :: 0 <= m < |c.modules| ==> Plain(c.modules[m]))
    && (forall f :: 0 <= f < |c.functions| ==> Plain(c.functions[f]))
  }

  /** No two pins share Board-Pin and MCU-Pin, and no candidate is listed twice. */
  predicate UniqueCandidates(c: Catalog)
  {
    NoDuplicates(PinIds(c)) && NoDuplicates(c.pinModFunc)
  }

  lemma IndexOfDistinct<T>(s: seq<T>, i: nat)
    requires NoDuplicates(s) && i < |s|
    ensures IndexOf(s, s[i]) == i
  {
    assert forall j :: 0 <= j < i ==> s[j] != s[i];
  }

  /** A candidate's label, under any conflict tag, resolves back to that candidate. */
  lemma CandidateLabelResolves(c: Catalog, k: nat, tag: string)
    requires Consistent(c) && PlainCatalog(c) && UniqueCandidates(c) && k < |c.pinModFunc|
    requires tag == "" || (|tag| >= 3 && tag[|tag| - 3..] == TagEnd)
    ensures ResolveLabel(c, tag + CandidateLabel(c, k)) == Some(k)
  {
    var f := CandidateFields(c, k);
    SplitFormatRoundTrip(tag, f.boardPin, f.mcuPin, f.moduleName, f.functionName);
    CandidateKeysResolve(c, k);
    IndexOfDistinct(c.pinModFunc, k);
  }

  /** The fields of a candidate resolve to its own pin and pair keys. */
  lemma CandidateKeysResolve(c: Catalog, k: nat)
    requires Consistent(c) && NoDuplicates(PinIds(c)) && k < |c.pinModFunc|
    ensures ResolveKeys(c, CandidateFields(c, k)) == Some((c.pinModFunc[k].pinKey, c.pinModFunc[k].modFuncKey))
  {
    var cand := c.pinModFunc[k];
    var p, mf := cand.pinKey, cand.modFuncKey;
    var pair := c.modFunc[mf];
    var f := CandidateFields(c, k);
    assert PinIds(c)[p] == (f.boardPin, f.mcuPin);
    IndexOfDistinct(PinIds(c), p);
    IndexOfDistinct(c.modules, pair.moduleKey);
    IndexOfDistinct(c.functions, pair.functionKey);
    IndexOfDistinct(c.modFunc, mf);
  }

  /**
   * Option `i` of a row's menu (past the leading '') is the label of the `i`-th allowed
   * candidate behind its conflict tag, and choosing it selects that candidate.
   */
  lemma MenuEntryResolves(c: Catalog, matches: Matcher, mapping: seq<MappingRow>, buses: map<string, Bus>,
                          self: nat, value: string, i: nat)
    requires Consistent(c) && PlainCatalog(c) && UniqueCandidates(c)
    requires KeysInRange(c, mapping) && self < |mapping| && mapping[self].bus in buses
    requires 0 < i < |MenuOptions(c, matches, mapping, buses, self, value)|
    ensures var allowed := AllowedCandidates(c, matches, mapping[self], buses);
      var option := MenuOptions(c, matches, mapping, buses, self, value)[i];
      i - 1 < |allowed|
      && RemoveSharedPrefix(option) == CandidateLabel(c, allowed[i - 1])
      && ResolveLabel(c, option) == Some(allowed[i - 1])
  {
    var row := mapping[self];
    var own := OwnKeys(c, row, value);
    var usedPins := UsedKeys(c, mapping, PinKind, own.0);
    var usedModFuncs := UsedKeys(c, mapping, ModFuncKind, own.1);
    var allowed := AllowedCandidates(c, matches, row, buses);
    var k := allowed[i - 1];
    var tag := CandidatePrefix(c, mapping, self, usedPins, usedModFuncs, k);
    var text := CandidateLabel(c, k);
    assert MenuOptions(c, matches, mapping, buses, self, value)[i] == MenuEntry(c, mapping, self, usedPins, usedModFuncs, k);
    assert MenuEntry(c, mapping, self, usedPins, usedModFuncs, k) == tag + text;
    var f := CandidateFields(c, k);
    PlainLabelHasNoAngle(f.boardPin, f.mcuPin, f.moduleName, f.functionName);
    NoAngleNoTag(text);
    RemoveTagOfTaggedLabel(tag, text);
    CandidateLabelResolves(c, k, tag);
  }

  /**
   * What a candidate's conflict tag means: it is empty unless another primary row uses
   * the candidate's pin or its pair (and that key counts as used); when another primary
   * row uses its pin, the tag is a pin tag.
   */
  lemma CandidatePrefixMeaning(c: Catalog, mapping: seq<MappingRow>, self: nat, usedPins: seq<nat>,
                               usedModFuncs: seq<nat>, k: nat)
    requires WellFormed(c) && k < |c.pinModFunc|
    ensures var pin, mf := c.pinModFunc[k].pinKey, c.pinModFunc[k].modFuncKey;
      var tag := CandidatePrefix(c, mapping, self, usedPins, usedModFuncs, k);
      && (tag == "" <==> forall h :: 0 <= h < |mapping| && h != self && mapping[h].primary ==>
            (pin !in usedPins || !Uses(c, mapping[h], PinKind, pin))
            && (mf !in usedModFuncs || !Uses(c, mapping[h], ModFuncKind, mf)))
      && ((pin in usedPins && exists h :: 0 <= h < |mapping| && h != self && HoldsPrimary(c, mapping[h], PinKind, pin))
            ==> |tag| > 3 && tag[..4] == "Pin>")
  {
    var pin, mf := c.pinModFunc[k].pinKey, c.pinModFunc[k].modFuncKey;
    var pinHolder := PrimaryHolder(c, mapping, PinKind, pin, self);
    var mfHolder := PrimaryHolder(c, mapping, ModFuncKind, mf, self);
    if pinHolder.Some? {
      assert HoldsPrimary(c, mapping[pinHolder.value], PinKind, pin);
    }
    if mfHolder.Some? {
      assert HoldsPrimary(c, mapping[mfHolder.value], ModFuncKind, mf);
    }
  }

  // ----- bus locks stay consistent -----

  /** Every mapped row on bus `b` uses module `lock`, and `lock` is -1 exactly when none is mapped. */
  predicate BusUniform(c: Catalog, mapping: seq<MappingRow>, b: string, lock: int)
    requires WellFormed(c) && KeysInRange(c, mapping)
  {
    && (lock == Unmapped <==> forall r :: 0 <= r < |mapping| && mapping[r].bus == b ==> mapping[r].key == Unmapped)
    && forall r :: 0 <= r < |mapping| && mapping[r].bus == b && mapping[r].key != Unmapped ==>
         ModuleOf(c, mapping[r].key) == lock
  }

  /** No two non-empty buses are locked to the same module. */
  predicate LocksDistinct(buses: map<string, Bus>)
  {
    forall b1, b2 :: b1 in buses && b2 in buses && b1 != b2 && b1 != "" && b2 != "" && buses[b1].moduleKey >= 0
      ==> buses[b1].moduleKey != buses[b2].moduleKey
  }

  /** Each non-empty bus is locked to the one module its mapped members use, and locks are distinct. */
  predicate BusLocks(c: Catalog, mapping: seq<MappingRow>, buses: map<string, Bus>)
    requires WellFormed(c) && KeysInRange(c, mapping)
  {
    && (forall b :: b in buses && b != "" ==> BusUniform(c, mapping, b, buses[b].moduleKey))
    && LocksDistinct(buses)
  }

  /** The value is one the row's menu offers: empty, or resolving to an allowed candidate. */
  predicate Offered(c: Catalog, matches: Matcher, mapping: seq<MappingRow>, buses: map<string, Bus>, self: nat, value: string)
    requires WellFormed(c) && self < |mapping| && mapping[self].bus in buses
  {
    value == "" || (ResolveLabel(c, value).Some?
      && CandidateAllowed(c, matches, mapping[self], buses, ResolveLabel(c, value).value))
  }

  lemma {:induction false} MembersModuleFrame(c: Catalog, m: seq<MappingRow>, m': seq<MappingRow>, members: seq<nat>)
    requires WellFormed(c) && KeysInRange(c, m) && KeysInRange(c, m') && |m| == |m'|
    requires forall i :: 0 <= i < |members| ==> members[i] < |m| && m[members[i]].key == m'[members[i]].key
    ensures MembersModule(c, m, members) == MembersModule(c, m', members)
  {
    if |members| > 0 {
      MembersModuleFrame(c, m, m', members[1..]);
    }
  }

  /** The lock the scan finds when all mapped rows of the bus use module `u`. */
  lemma NewLockUniform(c: Catalog, m: seq<MappingRow>, b: string, members: seq<nat>, u: int)
    requires WellFormed(c) && KeysInRange(c, m)
    requires members == BusMembers(m, b, 0) && forall i :: 0 <= i < |members| ==> members[i] < |m|
    requires forall r :: 0 <= r < |m| && m[r].bus == b && m[r].key != Unmapped ==> ModuleOf(c, m[r].key) == u
    ensures var lock := MembersModule(c, m, members);
      BusUniform(c, m, b, lock) && (lock == Unmapped || lock == u)
  {
    BusMembersSpec(m, b, 0);
    var lock := MembersModule(c, m, members);
    if lock != Unmapped {
      var i :| 0 <= i < |members| && m[members[i]].key != Unmapped && lock == ModuleOf(c, m[members[i]].key);
      assert lock == u;
    } else {
      forall r | 0 <= r < |m| && m[r].bus == b ensures m[r].key == Unmapped {
        assert r in members;
      }
    }
  }

  /** `m'` has the rows of `m` on the same buses, and changes no key off bus `b0`. */
  predicate SameOffBus(m: seq<MappingRow>, m': seq<MappingRow>, b0: string)
  {
    |m'| == |m| && forall r :: 0 <= r < |m| ==> m'[r].bus == m[r].bus && (m[r].bus != b0 ==> m'[r].key == m[r].key)
  }

  lemma UniformFrame(c: Catalog, m: seq<MappingRow>, m': seq<MappingRow>, b0: string, b: string, lock: int)
    requires WellFormed(c) && KeysInRange(c, m) && KeysInRange(c, m') && SameOffBus(m, m', b0) && b != b0
    requires BusUniform(c, m, b, lock)
    ensures BusUniform(c, m', b, lock)
  {
  }

  /** Changing one bus's lock to -1, or to a module no bus holds, keeps the locks distinct. */
  lemma LocksStayDistinct(buses: map<string, Bus>, b0: string, lock: int, u: int)
    requires LocksDistinct(buses) && b0 in buses && b0 != ""
    requires lock == Unmapped || lock == u
    requires u == buses[b0].moduleKey || (buses[b0].moduleKey == Unmapped && forall b :: b in buses ==> buses[b].moduleKey != u)
    ensures LocksDistinct(buses[b0 := buses[b0].(moduleKey := lock)])
  {
  }

  /**
   * When row `self`'s bus `b0` is the only bus whose keys change, every mapped row of `b0`
   * uses module `u`, and `u` is either `b0`'s lock or, `b0` being unlocked, no bus's lock,
   * updating `b0`'s lock keeps the invariant.
   */
  lemma UpdateBusKeepsLocks(c: Catalog, mapping: seq<MappingRow>, buses: map<string, Bus>, self: nat,
                            m2: seq<MappingRow>, u: int)
    requires WellFormed(c) && KeysInRange(c, mapping) && self < |mapping| && BusTable(mapping, buses)
    requires BusLocks(c, mapping, buses)
    requires KeysInRange(c, m2) && SameOffBus(mapping, m2, mapping[self].bus)
    requires var b0 := mapping[self].bus;
      b0 != "" ==>
        && (forall r :: 0 <= r < |m2| && m2[r].bus == b0 && m2[r].key != Unmapped ==> ModuleOf(c, m2[r].key) == u)
        && (u == buses[b0].moduleKey || (buses[b0].moduleKey == Unmapped && forall b :: b in buses ==> buses[b].moduleKey != u))
    ensures BusTable(m2, buses) && BusesFit(m2, buses)
    ensures BusLocks(c, m2, UpdateBus(c, m2, buses, self))
  {
    var b0 := mapping[self].bus;
    SameBusesSameMembersAll(mapping, m2, buses);
    TableFits(m2, buses);
    OtherBusesUniform(c, mapping, m2, buses, b0);
    if b0 != "" {
      NamedBusKeepsLocks(c, m2, buses, b0, u);
    }
  }

  lemma OtherBusesUniform(c: Catalog, mapping: seq<MappingRow>, m2: seq<MappingRow>, buses: map<string, Bus>, b0: string)
    requires WellFormed(c) && KeysInRange(c, mapping) && KeysInRange(c, m2) && SameOffBus(mapping, m2, b0)
    requires BusLocks(c, mapping, buses)
    ensures forall b :: b in buses && b != "" && b != b0 ==> BusUniform(c, m2, b, buses[b].moduleKey)
  {
    forall b | b in buses && b != "" && b != b0 ensures BusUniform(c, m2, b, buses[b].moduleKey) {
      UniformFrame(c, mapping, m2, b0, b, buses[b].moduleKey);
    }
  }

  lemma NamedBusKeepsLocks(c: Catalog, m2: seq<MappingRow>, buses: map<string, Bus>, b0: string, u: int)
    requires WellFormed(c) && KeysInRange(c, m2) && BusesFit(m2, buses)
    requires b0 in buses && b0 != "" && LocksDistinct(buses) && buses[b0].members == BusMembers(m2, b0, 0)
    requires forall b :: b in buses && b != "" && b != b0 ==> BusUniform(c, m2, b, buses[b].moduleKey)
    requires forall r :: 0 <= r < |m2| && m2[r].bus == b0 && m2[r].key != Unmapped ==> ModuleOf(c, m2[r].key) == u
    requires u == buses[b0].moduleKey || (buses[b0].moduleKey == Unmapped && forall b :: b in buses ==> buses[b].moduleKey != u)
    ensures BusLocks(c, m2, buses[b0 := buses[b0].(moduleKey := MembersModule(c, m2, buses[b0].members))])
  {
    var newLock := MembersModule(c, m2, buses[b0].members);
    NewLockUniform(c, m2, b0, buses[b0].members, u);
    LocksStayDistinct(buses, b0, newLock, u);
    RelockUniform(c, m2, buses, b0, newLock);
  }

  lemma RelockUniform(c: Catalog, m2: seq<MappingRow>, buses: map<string, Bus>, b0: string, lock: int)
    requires WellFormed(c) && KeysInRange(c, m2) && b0 in buses
    requires forall b :: b in buses && b != "" && b != b0 ==> BusUniform(c, m2, b, buses[b].moduleKey)
    requires BusUniform(c, m2, b0, lock)
    ensures var after := buses[b0 := buses[b0].(moduleKey := lock)];
      forall b :: b in after && b != "" ==> BusUniform(c, m2, b, after[b].moduleKey)
  {
    var after := buses[b0 := buses[b0].(moduleKey := lock)];
    forall b | b in after && b != "" ensures BusUniform(c, m2, b, after[b].moduleKey) {
      if b != b0 {
        assert after[b] == buses[b];
      }
    }
  }

  /** The tail of a change keeps the invariant when the staged rewrite `m1` of row `self` meets the lock condition. */
  lemma AfterPrimaryKeepsLocks(c: Catalog, mapping: seq<MappingRow>, buses: map<string, Bus>, self: nat,
                               m1: seq<MappingRow>, u: int)
    requires WellFormed(c) && KeysInRange(c, mapping) && self < |mapping| && BusTable(mapping, buses)
    requires BusLocks(c, mapping, buses)
    requires KeysInRange(c, m1) && |m1| == |mapping| && m1[self].bus == mapping[self].bus
    requires forall r :: 0 <= r < |mapping| && r != self ==> m1[r] == mapping[r]
    requires var b0 := mapping[self].bus;
      b0 != "" ==>
        && (forall r :: 0 <= r < |m1| && m1[r].bus == b0 && m1[r].key != Unmapped ==> ModuleOf(c, m1[r].key) == u)
        && (u == buses[b0].moduleKey || (buses[b0].moduleKey == Unmapped && forall b :: b in buses ==> buses[b].moduleKey != u))
    ensures BusesFit(m1, buses)
    ensures var o := AfterPrimary(c, m1, buses, self, mapping[self]);
      KeysInRange(c, o.mapping) && (!o.raised ==> BusLocks(c, o.mapping, o.buses))
  {
    SameBusesSameMembersAll(mapping, m1, buses);
    AfterPrimaryKeeps(c, m1, buses, self, mapping[self]);
    AfterPrimaryUpdatesBus(c, m1, buses, self, mapping[self]);
    var o := AfterPrimary(c, m1, buses, self, mapping[self]);
    if !o.raised {
      var m2 := o.mapping;
      var b0 := mapping[self].bus;
      SameKeysOffBus(mapping, m1, m2, self);
      if b0 != "" {
        BusModuleCarries(c, m1, m2, b0, u);
      }
      UpdateBusKeepsLocks(c, mapping, buses, self, m2, u);
    }
  }

  lemma SameKeysOffBus(mapping: seq<MappingRow>, m1: seq<MappingRow>, m2: seq<MappingRow>, self: nat)
    requires |m1| == |mapping| && self < |mapping| && m1[self].bus == mapping[self].bus
    requires forall r :: 0 <= r < |mapping| && r != self ==> m1[r] == mapping[r]
    requires |m2| == |m1| && forall i :: 0 <= i < |m1| ==> m2[i].key == m1[i].key && m2[i].bus == m1[i].bus
    ensures SameOffBus(mapping, m2, mapping[self].bus)
  {
  }

  lemma BusModuleCarries(c: Catalog, m1: seq<MappingRow>, m2: seq<MappingRow>, b0: string, u: int)
    requires WellFormed(c) && KeysInRange(c, m1) && KeysInRange(c, m2)
    requires |m2| == |m1| && forall i :: 0 <= i < |m1| ==> m2[i].key == m1[i].key && m2[i].bus == m1[i].bus
    requires forall r :: 0 <= r < |m1| && m1[r].bus == b0 && m1[r].key != Unmapped ==> ModuleOf(c, m1[r].key) == u
    ensures forall r :: 0 <= r < |m2| && m2[r].bus == b0 && m2[r].key != Unmapped ==> ModuleOf(c, m2[r].key) == u
  {
    forall r | 0 <= r < |m2| && m2[r].bus == b0 && m2[r].key != Unmapped ensures ModuleOf(c, m2[r].key) == u {
      assert m1[r].bus == b0 && m1[r].key == m2[r].key;
    }
  }

  /** Unless the source raised, the tail of a change updates the bus of row `self` in the final mapping. */
  lemma AfterPrimaryUpdatesBus(c: Catalog, m1: seq<MappingRow>, buses: map<string, Bus>, self: nat, oldRow: MappingRow)
    requires WellFormed(c) && KeysInRange(c, m1) && self < |m1| && BusesFit(m1, buses)
    ensures var o := AfterPrimary(c, m1, buses, self, oldRow);
      !o.raised ==> (KeysInRange(c, o.mapping) && self < |o.mapping| && BusesFit(o.mapping, buses)
        && o.buses == UpdateBus(c, o.mapping, buses, self))
  {
    if oldRow.primary && Promote(c, m1, oldRow.mapped).Some? {
      var m2 := Promote(c, m1, oldRow.mapped).value;
      assert forall i :: 0 <= i < |m1| ==> m2[i].bus == m1[i].bus;
    }
  }

  /**
   * A change to a value the row's menu offers keeps every non-empty bus locked to the
   * module all its mapped members use, and no two buses locked to the same module.
   */
  lemma ApplyChangeKeepsBusLocks(c: Catalog, matches: Matcher, mapping: seq<MappingRow>, buses: map<string, Bus>,
                                 self: nat, value: string)
    requires WellFormed(c) && KeysInRange(c, mapping) && self < |mapping| && BusTable(mapping, buses)
    requires BusLocks(c, mapping, buses)
    requires Offered(c, matches, mapping, buses, self, value)
    ensures BusesFit(mapping, buses)
    ensures var o := ApplyChange(c, mapping, buses, self, value);
      KeysInRange(c, o.mapping) && (!o.raised ==> BusLocks(c, o.mapping, o.buses))
  {
    TableFits(mapping, buses);
    if value == "" {
      ClearKeepsLocks(c, mapping, buses, self);
    } else if ResolveLabel(c, value).Some? {
      AssignKeepsLocks(c, matches, mapping, buses, self, value, ResolveLabel(c, value).value);
    }
  }

  lemma ClearKeepsLocks(c: Catalog, mapping: seq<MappingRow>, buses: map<string, Bus>, self: nat)
    requires WellFormed(c) && KeysInRange(c, mapping) && self < |mapping| && BusTable(mapping, buses)
    requires BusLocks(c, mapping, buses)
    ensures BusesFit(mapping, buses)
    ensures var o := ApplyChange(c, mapping, buses, self, "");
      KeysInRange(c, o.mapping) && (!o.raised ==> BusLocks(c, o.mapping, o.buses))
  {
    TableFits(mapping, buses);
    var row := mapping[self];
    var lock := buses[row.bus].moduleKey;
    if row.bus != "" {
      assert BusUniform(c, mapping, row.bus, lock);
    }
    var m1 := mapping[self := Cleared(row)];
    RowRewriteKeeps(c, mapping, buses, self, m1);
    AfterPrimaryKeepsLocks(c, mapping, buses, self, m1, lock);
  }

  lemma AssignKeepsLocks(c: Catalog, matches: Matcher, mapping: seq<MappingRow>, buses: map<string, Bus>,
                         self: nat, value: string, k: nat)
    requires WellFormed(c) && KeysInRange(c, mapping) && self < |mapping| && BusTable(mapping, buses)
    requires BusLocks(c, mapping, buses)
    requires value != "" && ResolveLabel(c, value) == Some(k) && CandidateAllowed(c, matches, mapping[self], buses, k)
    ensures BusesFit(mapping, buses)
    ensures var o := ApplyChange(c, mapping, buses, self, value);
      KeysInRange(c, o.mapping) && (!o.raised ==> BusLocks(c, o.mapping, o.buses))
  {
    TableFits(mapping, buses);
    var b0 := mapping[self].bus;
    var lock := buses[b0].moduleKey;
    var m1 := Assign(c, mapping, self, value, k);
    var u := if lock >= 0 then lock else ModuleOf(c, k);
    RowRewriteKeeps(c, mapping, buses, self, m1);
    if b0 != "" {
      AssignedBusModule(c, matches, mapping, buses, self, k, m1);
    }
    AfterPrimaryKeepsLocks(c, mapping, buses, self, m1, u);
    assert ApplyChange(c, mapping, buses, self, value) == AfterPrimary(c, m1, buses, self, mapping[self]);
  }

  /** The rows of the assigned row's bus all use its lock, or, the bus being unlocked, the new module, which no bus holds. */
  lemma AssignedBusModule(c: Catalog, matches: Matcher, mapping: seq<MappingRow>, buses: map<string, Bus>,
                          self: nat, k: nat, m1: seq<MappingRow>)
    requires WellFormed(c) && KeysInRange(c, mapping) && self < |mapping| && BusesFit(mapping, buses)
    requires BusLocks(c, mapping, buses) && mapping[self].bus != ""
    requires CandidateAllowed(c, matches, mapping[self], buses, k)
    requires KeysInRange(c, m1) && |m1| == |mapping| && m1[self].bus == mapping[self].bus && m1[self].key == k
    requires forall r :: 0 <= r < |mapping| && r != self ==> m1[r] == mapping[r]
    ensures var b0 := mapping[self].bus;
      var lock := buses[b0].moduleKey;
      var u := if lock >= 0 then lock else ModuleOf(c, k);
      && (forall r :: 0 <= r < |m1| && m1[r].bus == b0 && m1[r].key != Unmapped ==> ModuleOf(c, m1[r].key) == u)
      && (u == lock || (lock == Unmapped && forall b :: b in buses ==> buses[b].moduleKey != u))
  {
    var b0 := mapping[self].bus;
    var lock := buses[b0].moduleKey;
    var u := if lock >= 0 then lock else ModuleOf(c, k);
    assert ModuleAllowed(c, matches, mapping[self], buses, ModuleOf(c, k));
    assert BusUniform(c, mapping, b0, lock);
    forall r | 0 <= r < |m1| && m1[r].bus == b0 && m1[r].key != Unmapped ensures ModuleOf(c, m1[r].key) == u {
      if r != self {
        assert mapping[r].bus == b0 && mapping[r].key != Unmapped;
      }
    }
  }

  /**
   * A row that is not primary, on a named bus none of whose other rows is mapped, takes
   * candidate `k` through its label: nothing raises, only that row changes, and its bus is
   * locked to the candidate's module whatever the locks were before.
   */
  lemma SoleChoiceLocksBus(c: Catalog, mapping: seq<MappingRow>, buses: map<string, Bus>, self: nat, k: nat)
    requires Consistent(c) && PlainCatalog(c) && UniqueCandidates(c) && k < |c.pinModFunc|
    requires KeysInRange(c, mapping) && self < |mapping| && BusTable(mapping, buses)
    requires mapping[self].bus != "" && !mapping[self].primary
    requires forall r :: 0 <= r < |mapping| && r != self && mapping[r].bus == mapping[self].bus ==> mapping[r].key == Unmapped
    ensures BusesFit(mapping, buses)
    ensures var o := ApplyChange(c, mapping, buses, self, CandidateLabel(c, k));
      && !o.raised && |o.mapping| == |mapping| && o.mapping[self].key == k
      && (forall r :: 0 <= r < |mapping| && r != self ==> o.mapping[r] == mapping[r])
      && o.buses == buses[mapping[self].bus := buses[mapping[self].bus].(moduleKey := ModuleOf(c, k))]
  {
    TableFits(mapping, buses);
    var text := CandidateLabel(c, k);
    var b := mapping[self].bus;
    CandidateLabelResolves(c, k, "");
    assert "" + text == text;
    var m1 := Assign(c, mapping, self, text, k);
    assert ApplyChange(c, mapping, buses, self, text) == AfterPrimary(c, m1, buses, self, mapping[self]);
    RowRewriteKeeps(c, mapping, buses, self, m1);
    SoleMemberModule(c, m1, b, self, k);
    assert UpdateBus(c, m1, buses, self) == buses[b := buses[b].(moduleKey := ModuleOf(c, k))];
  }

  /** On a bus where only row `self` is mapped, to candidate `k`, the scan finds `k`'s module. */
  lemma SoleMemberModule(c: Catalog, m: seq<MappingRow>, b: string, self: nat, k: nat)
    requires WellFormed(c) && KeysInRange(c, m) && self < |m| && m[self].bus == b && m[self].key == k
    requires k < |c.pinModFunc|
    requires forall r :: 0 <= r < |m| && r != self && m[r].bus == b ==> m[r].key == Unmapped
    ensures var members := BusMembers(m, b, 0);
      && (forall i :: 0 <= i < |members| ==> members[i] < |m|)
      && MembersModule(c, m, members) == ModuleOf(c, k)
  {
    var members := BusMembers(m, b, 0);
    BusMembersSpec(m, b, 0);
    assert self in members;
    var lock := MembersModule(c, m, members);
    var i: nat :| FirstMappedAt(m, members, i) && lock == ModuleOf(c, m[members[i]].key);
    assert members[i] == self;
  }

  /**
   * Two changes whose values were both chosen from menus built before either change lock
   * two named buses to one module. Nothing is mapped at first, so every bus is unlocked.
   * Row `r1` takes a candidate of module M, which locks its bus to M; from then on row
   * `r2`'s menu no longer offers its candidate of M, but a value chosen from its stale menu
   * is still applied and locks the second bus to M as well.
   */
  lemma StaleChoiceSharesLock(c: Catalog, matches: Matcher, mapping: seq<MappingRow>, buses: map<string, Bus>,
                              r1: nat, r2: nat, k1: nat, k2: nat)
    requires Consistent(c) && PlainCatalog(c) && UniqueCandidates(c)
    requires KeysInRange(c, mapping) && BusTable(mapping, buses) && BusLocks(c, mapping, buses)
    requires forall r :: 0 <= r < |mapping| ==> mapping[r].key == Unmapped && !mapping[r].primary
    requires r1 < |mapping| && r2 < |mapping| && mapping[r1].bus != "" && mapping[r2].bus != ""
    requires mapping[r1].bus != mapping[r2].bus
    requires k1 < |c.pinModFunc| && k2 < |c.pinModFunc| && ModuleOf(c, k1) == ModuleOf(c, k2)
    ensures BusesFit(mapping, buses)
    ensures var first := ApplyChange(c, mapping, buses, r1, CandidateLabel(c, k1));
      && !first.raised && KeysInRange(c, first.mapping) && BusesFit(first.mapping, first.buses)
      && |first.mapping| == |mapping| && first.mapping[r2] == mapping[r2]
      && !CandidateAllowed(c, matches, mapping[r2], first.buses, k2)
      && var second := ApplyChange(c, first.mapping, first.buses, r2, CandidateLabel(c, k2));
        && !second.raised
        && second.buses[mapping[r1].bus].moduleKey == second.buses[mapping[r2].bus].moduleKey == ModuleOf(c, k1)
        && !LocksDistinct(second.buses)
  {
    FirstChoiceClosesMenu(c, matches, mapping, buses, r1, r2, k1, k2);
    var first := ApplyChange(c, mapping, buses, r1, CandidateLabel(c, k1));
    TableFits(first.mapping, first.buses);
    SoleChoiceLocksBus(c, first.mapping, first.buses, r2, k2);
  }

  /** The first change of StaleChoiceSharesLock locks `r1`'s bus and takes `k2` off `r2`'s menu. */
  lemma FirstChoiceClosesMenu(c: Catalog, matches: Matcher, mapping: seq<MappingRow>, buses: map<string, Bus>,
                              r1: nat, r2: nat, k1: nat, k2: nat)
    requires Consistent(c) && PlainCatalog(c) && UniqueCandidates(c)
    requires KeysInRange(c, mapping) && BusTable(mapping, buses) && BusLocks(c, mapping, buses)
    requires forall r :: 0 <= r < |mapping| ==> mapping[r].key == Unmapped && !mapping[r].primary
    requires r1 < |mapping| && r2 < |mapping| && mapping[r1].bus != "" && mapping[r2].bus != ""
    requires mapping[r1].bus != mapping[r2].bus
    requires k1 < |c.pinModFunc| && k2 < |c.pinModFunc| && ModuleOf(c, k1) == ModuleOf(c, k2)
    ensures BusesFit(mapping, buses)
    ensures var first := ApplyChange(c, mapping, buses, r1, CandidateLabel(c, k1));
      && !first.raised && KeysInRange(c, first.mapping) && BusTable(first.mapping, first.buses)
      && |first.mapping| == |mapping| && first.mapping[r2] == mapping[r2]
      && (forall r :: 0 <= r < |mapping| && r != r1 ==> first.mapping[r].key == Unmapped)
      && first.buses[mapping[r1].bus].moduleKey == ModuleOf(c, k1)
      && !CandidateAllowed(c, matches, mapping[r2], first.buses, k2)
  {
    TableFits(mapping, buses);
    var b2 := mapping[r2].bus;
    SoleChoiceLocksBus(c, mapping, buses, r1, k1);
    ApplyChangeKeepsTables(c, mapping, buses, r1, CandidateLabel(c, k1));
    var first := ApplyChange(c, mapping, buses, r1, CandidateLabel(c, k1));
    assert BusUniform(c, mapping, b2, buses[b2].moduleKey);
    assert !ModuleAllowed(c, matches, mapping[r2], first.buses, ModuleOf(c, k2));
  }
}
