/** Which devices an inventory selects. A workflow that names a saved inventory evaluates the
    saved tree (backend/utils/inventory_converter.py); one with a fixed filter evaluates the
    converted canvas tree (backend/workflow_steps/get_nautobot_devices/executor.py). Both
    become operations for the same evaluator (backend/services/sources/nautobot/evaluator.py,
    backend/services/sources/nautobot/source_service.py). */
module InventorySelection {
  import opened Common
  import opened FilterTree

  type Device = nat
  type Devices = set<Device>

  /** The devices that match one condition. */
  type Query = Condition -> Devices

  datatype Operation = Operation(kind: string, conditions: seq<Condition>, nested: seq<Operation>)

  // ----- The evaluator -----

  function Intersection(sets: seq<Devices>): Devices {
    if sets == [] then {} else if |sets| == 1 then sets[0] else sets[0] * Intersection(sets[1..])
  }

  function Union(sets: seq<Devices>): Devices {
    if sets == [] then {} else sets[0] + Union(sets[1..])
  }

  function Matches(conditions: seq<Condition>, q: Query): seq<Devices> {
    if conditions == [] then [] else [q(conditions[0])] + Matches(conditions[1..], q)
  }

  /** `_execute_operation`: conditions and plain nested operations are combined, nested NOT
      operations are subtracted; a NOT operation is the union of its parts. */
  function Execute(op: Operation, q: Query): Devices
    decreases op, 1
  {
    var results := Matches(op.conditions, q) + Results(op.nested, q, false);
    var excluded := Union(Results(op.nested, q, true));
    if op.kind == "AND" then Intersection(results) - excluded
    else if op.kind == "OR" then Union(results) - excluded
    else if op.kind == "NOT" then Union(results)
    else {}
  }

  /** The results of the nested operations that are, or are not, NOT operations. */
  function Results(nested: seq<Operation>, q: Query, not: bool): seq<Devices>
    decreases nested, 0
  {
    if nested == [] then []
    else (if (nested[0].kind == "NOT") == not then [Execute(nested[0], q)] else []) + Results(nested[1..], q, not)
  }

  /** `preview_inventory` after some operations. */
  function PreviewFrom(selected: Devices, operations: seq<Operation>, q: Query): Devices
    decreases |operations|
  {
    if operations == [] then selected
    else
      var op := operations[0];
      var next :=
        if selected == {} then (if op.kind == "NOT" then {} else Execute(op, q))
        else if op.kind == "NOT" then selected - Execute(op, q)
        else selected * Execute(op, q);
      PreviewFrom(next, operations[1..], q)
  }

  /** No operations at all select every device. */
  function Preview(operations: seq<Operation>, q: Query, all: Devices): Devices {
    if operations == [] then all else PreviewFrom({}, operations, q)
  }

  /** A second plain operation narrows what is selected, a NOT operation takes away from it. */
  lemma NextOperation(selected: Devices, op: Operation, q: Query)
    requires selected != {}
    ensures PreviewFrom(selected, [op], q)
            == if op.kind == "NOT" then selected - Execute(op, q) else selected * Execute(op, q)
  {
    assert [op][1..] == [];
  }

  lemma {:induction false} InUnion(sets: seq<Devices>, x: Device)
    ensures x in Union(sets) <==> exists i | 0 <= i < |sets| :: x in sets[i]
  {
    if sets != [] {
      InUnion(sets[1..], x);
      if i :| 0 < i < |sets| && x in sets[i] {
        assert x in sets[1..][i - 1];
      }
    }
  }

  lemma {:induction false} InIntersection(sets: seq<Devices>, x: Device)
    ensures x in Intersection(sets) <==> sets != [] && forall i | 0 <= i < |sets| :: x in sets[i]
  {
    if |sets| > 1 {
      InIntersection(sets[1..], x);
      forall i | 0 < i < |sets|
        ensures sets[i] == sets[1..][i - 1]
      {
      }
    }
  }

  // ----- Operands, device by device -----

  /** What `x` makes of the conditions. */
  function At(q: Query, x: Device): Truth {
    c => x in q(c)
  }

  ghost predicate InAny(sets: seq<Devices>, x: Device) {
    exists i | 0 <= i < |sets| :: x in sets[i]
  }

  ghost predicate InAll(sets: seq<Devices>, x: Device) {
    forall i | 0 <= i < |sets| :: x in sets[i]
  }

  lemma {:induction false} Joined(a: seq<Devices>, b: seq<Devices>, x: Device)
    ensures InAny(a + b, x) <==> InAny(a, x) || InAny(b, x)
    ensures InAll(a + b, x) <==> InAll(a, x) && InAll(b, x)
  {
    var all := a + b;
    assert forall i | 0 <= i < |a| :: all[i] == a[i];
    assert forall i | 0 <= i < |b| :: all[|a| + i] == b[i];
    assert forall i | |a| <= i < |all| :: all[i] == b[i - |a|];
  }

  lemma {:induction false} Alone(s: Devices, x: Device)
    ensures (InAny([s], x) <==> x in s) && (InAll([s], x) <==> x in s)
  {
    assert [s][0] == s;
  }

  lemma {:induction false} AddFirst(s: Devices, sets: seq<Devices>, x: Device)
    ensures InAny([s] + sets, x) <==> x in s || InAny(sets, x)
    ensures InAll([s] + sets, x) <==> x in s && InAll(sets, x)
  {
    Alone(s, x);
    Joined([s], sets, x);
  }

  lemma {:induction false} AddBetween(a: seq<Devices>, s: Devices, b: seq<Devices>, x: Device)
    ensures InAny(a + [s] + b, x) <==> x in s || InAny(a + b, x)
    ensures InAll(a + [s] + b, x) <==> x in s && InAll(a + b, x)
  {
    Alone(s, x);
    Joined(a, [s], x);
    Joined(a + [s], b, x);
    Joined(a, b, x);
  }

  /** Some plain operand holds. */
  predicate SomeTrue(ss: seq<Signed>) {
    exists i | 0 <= i < |ss| :: !ss[i].negated && ss[i].value
  }

  /** Every plain operand holds. */
  predicate AllTrue(ss: seq<Signed>) {
    forall i | 0 <= i < |ss| && !ss[i].negated :: ss[i].value
  }

  /** The device sets an operation combines, against the signed values of the items. */
  ghost predicate Agree(plain: seq<Devices>, not: seq<Devices>, ss: seq<Signed>, x: Device) {
    && (plain != [] <==> AnyPlain(ss))
    && (InAny(plain, x) <==> SomeTrue(ss)) && (InAll(plain, x) <==> AllTrue(ss))
    && (InAny(not, x) <==> Excluded(ss))
  }

  lemma {:induction false} AgreeNone(x: Device)
    ensures Agree([], [], [], x)
  {
  }

  lemma {:induction false} AgreePlain(
      plain: seq<Devices>, more: seq<Devices>, not: seq<Devices>, s: Devices, v: Signed, ss: seq<Signed>, x: Device)
    requires Agree(plain, not, ss, x) && !v.negated && (v.value <==> x in s)
    requires more != [] && (InAny(more, x) <==> x in s || InAny(plain, x))
    requires InAll(more, x) <==> x in s && InAll(plain, x)
    ensures Agree(more, not, [v] + ss, x)
  {
    SignedFirst(v, ss);
  }

  lemma {:induction false} AgreeNot(
      plain: seq<Devices>, not: seq<Devices>, s: Devices, v: Signed, ss: seq<Signed>, x: Device)
    requires Agree(plain, not, ss, x) && v.negated && (v.value <==> x in s)
    ensures Agree(plain, [s] + not, [v] + ss, x)
  {
    AddFirst(s, not, x);
    SignedFirst(v, ss);
  }

  lemma {:induction false} SignedFirst(v: Signed, ss: seq<Signed>)
    ensures var all := [v] + ss;
            && (AnyPlain(all) <==> !v.negated || AnyPlain(ss))
            && (Excluded(all) <==> (v.negated && v.value) || Excluded(ss))
            && (SomeTrue(all) <==> (!v.negated && v.value) || SomeTrue(ss))
            && (AllTrue(all) <==> (v.negated || v.value) && AllTrue(ss))
  {
    var all := [v] + ss;
    assert all[0] == v;
    assert forall i | 0 <= i < |ss| :: all[i + 1] == ss[i];
    assert forall i | 0 < i < |all| :: all[i] == ss[i - 1];
  }

  lemma {:induction false} Prepended(
      c: Condition, conditions: seq<Condition>, op: Operation, ops: seq<Operation>, q: Query)
    ensures Matches([c] + conditions, q) == [q(c)] + Matches(conditions, q)
    ensures Results([op] + ops, q, op.kind == "NOT") == [Execute(op, q)] + Results(ops, q, op.kind == "NOT")
    ensures Results([op] + ops, q, op.kind != "NOT") == Results(ops, q, op.kind != "NOT")
    ensures ExecuteAll([op] + ops, q) == [Execute(op, q)] + ExecuteAll(ops, q)
  {
    assert ([c] + conditions)[1..] == conditions && ([op] + ops)[1..] == ops;
  }

  /** The operands of an operation agree with the signed values. */
  ghost predicate Operands(conditions: seq<Condition>, nested: seq<Operation>, q: Query, ss: seq<Signed>, x: Device) {
    Agree(Matches(conditions, q) + Results(nested, q, false), Results(nested, q, true), ss, x)
  }

  lemma {:induction false} OneMoreCondition(
      c: Condition, conditions: seq<Condition>, nested: seq<Operation>, q: Query, ss: seq<Signed>, x: Device)
    requires Operands(conditions, nested, q, ss, x)
    ensures Operands([c] + conditions, nested, q, [Signed(false, x in q(c))] + ss, x)
  {
    var plain, not := Matches(conditions, q) + Results(nested, q, false), Results(nested, q, true);
    Prepended(c, conditions, Operation("AND", [], []), [], q);
    assert Matches([c] + conditions, q) + Results(nested, q, false) == [q(c)] + plain;
    AddFirst(q(c), plain, x);
    AgreePlain(plain, [q(c)] + plain, not, q(c), Signed(false, x in q(c)), ss, x);
  }

  lemma {:induction false} OneMoreOperation(
      op: Operation, conditions: seq<Condition>, nested: seq<Operation>, q: Query, ss: seq<Signed>, x: Device)
    requires Operands(conditions, nested, q, ss, x)
    ensures Operands(conditions, [op] + nested, q, [Signed(op.kind == "NOT", x in Execute(op, q))] + ss, x)
  {
    var s, v := Execute(op, q), Signed(op.kind == "NOT", x in Execute(op, q));
    var before, after, not := Matches(conditions, q), Results(nested, q, false), Results(nested, q, true);
    Prepended(Condition(None, None, None, None), [], op, nested, q);
    if op.kind == "NOT" {
      AgreeNot(before + after, not, s, v, ss, x);
    } else {
      assert before + ([s] + after) == before + [s] + after;
      AddBetween(before, s, after, x);
      AgreePlain(before + after, before + [s] + after, not, s, v, ss, x);
    }
  }

  function ExecuteAll(ops: seq<Operation>, q: Query): seq<Devices> {
    if ops == [] then [] else [Execute(ops[0], q)] + ExecuteAll(ops[1..], q)
  }

  /** What an operation makes of its operands: negated ones are subtracted, except that a NOT
      operation unites its plain operands and overlooks the negated ones. */
  predicate Combined(kind: string, ss: seq<Signed>) {
    if kind == "NOT" then SomeTrue(ss) else Subtract(kind, ss)
  }

  /** Intersection, union and difference of device sets compute that. */
  lemma {:induction false} OperandsCombine(op: Operation, q: Query, ss: seq<Signed>, x: Device)
    requires Operands(op.conditions, op.nested, q, ss, x)
    ensures x in Execute(op, q) <==> Combined(op.kind, ss)
  {
    var results := Matches(op.conditions, q) + Results(op.nested, q, false);
    InUnion(results, x);
    InIntersection(results, x);
    InUnion(Results(op.nested, q, true), x);
  }

  lemma {:induction false} NotOfOne(op: Operation, q: Query)
    ensures Execute(Operation("NOT", [], [op]), q) == if op.kind == "NOT" then {} else Execute(op, q)
  {
    assert [op][1..] == [];
    assert Results([op], q, false) == if op.kind == "NOT" then [] else [Execute(op, q)];
    assert Matches([], q) + Results([op], q, false) == Results([op], q, false);
    assert Union([Execute(op, q)]) == Execute(op, q) + Union([]);
  }

  // ----- The fixed filter -----

  function Conditions(items: seq<Filter>): seq<Condition> {
    if items == [] then []
    else (if items[0].Leaf? then [items[0].condition] else []) + Conditions(items[1..])
  }

  /** `group_to_op`: a negated subgroup is wrapped in a NOT operation. */
  function GroupOperation(f: Filter): Operation
    requires f.FilterGroup?
    decreases f, 1
  {
    Operation(f.logic, Conditions(f.items), GroupOperations(f.items))
  }

  function GroupOperations(items: seq<Filter>): seq<Operation>
    decreases items, 0
  {
    if items == [] then []
    else
      var rest := GroupOperations(items[1..]);
      match items[0]
      case Leaf(_) => rest
      case FilterGroup(_, _, negate, _) =>
        var op := GroupOperation(items[0]);
        [if negate then Operation("NOT", [], [op]) else op] + rest
  }

  /** `_filter_tree_to_operations`. */
  function FilterOperations(f: Filter): seq<Operation>
    requires f.FilterGroup?
  {
    if f.items == [] then []
    else if f.negate then [Operation("NOT", [], [GroupOperation(f)])]
    else [GroupOperation(f)]
  }

  /** How a fixed filter reads: a negated group excludes its value, and so does a group whose
      own logic is NOT; a group that is both excludes nothing. */
  function FixedMeaning(f: Filter, truth: Truth): Signed
    decreases f, 1
  {
    match f
    case Leaf(c) => Signed(false, truth(c))
    case FilterGroup(_, logic, negate, items) =>
      var value := Combined(logic, FixedMeanings(items, truth));
      if negate then Signed(true, logic != "NOT" && value) else Signed(logic == "NOT", value)
  }

  function FixedMeanings(items: seq<Filter>, truth: Truth): seq<Signed>
    decreases items, 0
  {
    if items == [] then [] else [FixedMeaning(items[0], truth)] + FixedMeanings(items[1..], truth)
  }

  /** A filter that excludes at its root has nothing to exclude from. */
  predicate FixedHolds(f: Filter, truth: Truth)
    requires f.FilterGroup?
  {
    var v := FixedMeaning(f, truth);
    v.value && !v.negated
  }

  lemma {:induction false} GroupMeaning(f: Filter, q: Query, x: Device)
    requires f.FilterGroup?
    ensures x in Execute(GroupOperation(f), q) <==> Combined(f.logic, FixedMeanings(f.items, At(q, x)))
    decreases f, 1
  {
    GroupItemsAgree(f.items, q, x);
    OperandsCombine(GroupOperation(f), q, FixedMeanings(f.items, At(q, x)), x);
  }

  lemma {:induction false} GroupItemsAgree(items: seq<Filter>, q: Query, x: Device)
    ensures Operands(Conditions(items), GroupOperations(items), q, FixedMeanings(items, At(q, x)), x)
    decreases items, 0
  {
    if items == [] {
      AgreeNone(x);
      assert Matches([], q) + Results([], q, false) == [];
    } else {
      var rest := items[1..];
      GroupItemsAgree(rest, q, x);
      var conditions, nested, ss := Conditions(rest), GroupOperations(rest), FixedMeanings(rest, At(q, x));
      if items[0].Leaf? {
        OneMoreCondition(items[0].condition, conditions, nested, q, ss, x);
      } else {
        GroupMeaning(items[0], q, x);
        var op := GroupOperation(items[0]);
        NotOfOne(op, q);
        assert Conditions(items) == conditions;
        OneMoreOperation(if items[0].negate then Operation("NOT", [], [op]) else op, conditions, nested, q, ss, x);
      }
    }
  }

  /** Every fixed filter selects exactly the devices of that reading; an empty one selects
      every device. */
  lemma {:induction false} FixedFilterSelects(f: Filter, q: Query, all: Devices, x: Device)
    requires f.FilterGroup?
    ensures x in Preview(FilterOperations(f), q, all) <==> if f.items == [] then x in all else FixedHolds(f, At(q, x))
  {
    if f.items != [] {
      GroupMeaning(f, q, x);
      var ops := FilterOperations(f);
      assert ops[1..] == [];
      assert PreviewFrom({}, ops, q) == if ops[0].kind == "NOT" then {} else Execute(ops[0], q);
    }
  }

  /** No group is combined by "NOT": that is what the sign is for. */
  predicate Proper(f: Filter)
    decreases f, 1
  {
    f.FilterGroup? ==> f.logic != "NOT" && ProperAll(f.items)
  }

  predicate ProperAll(items: seq<Filter>)
    decreases items, 0
  {
    items == [] || (Proper(items[0]) && ProperAll(items[1..]))
  }

  /** Then it is the subtractive reading. */
  lemma {:induction false} ProperMeaning(f: Filter, truth: Truth)
    requires Proper(f)
    ensures FixedMeaning(f, truth) == FilterMeaning(f, truth, Subtract)
    decreases f, 1
  {
    if f.FilterGroup? {
      ProperMeanings(f.items, truth);
    }
  }

  lemma {:induction false} ProperMeanings(items: seq<Filter>, truth: Truth)
    requires ProperAll(items)
    ensures FixedMeanings(items, truth) == FilterMeanings(items, truth, Subtract)
    decreases items, 0
  {
    if items != [] {
      ProperMeaning(items[0], truth);
      ProperMeanings(items[1..], truth);
    }
  }

  // ----- The saved inventory -----

  function SavedConditions(items: seq<Item>): seq<Condition> {
    if items == [] then []
    else (if items[0].Single? then [items[0].condition] else []) + SavedConditions(items[1..])
  }

  /** A negated group is evaluated as a NOT operation on its own members. */
  function Marked(item: Item, op: Operation): Operation
    requires item.Group?
  {
    if Negated(item) then op.(kind := "NOT") else op
  }

  /** `_convert_item`. */
  function ItemOperation(item: Item): Operation
    decreases item, 1
  {
    match item
    case Single(c) => Operation("AND", [c], [])
    case Group(_, _, internal, items) => Operation(LogicOr(internal), SavedConditions(items), ItemOperations(items))
  }

  function ItemOperations(items: seq<Item>): seq<Operation>
    decreases items, 0
  {
    if items == [] then []
    else (if items[0].Group? then [Marked(items[0], ItemOperation(items[0]))] else []) + ItemOperations(items[1..])
  }

  predicate IsNot(item: Item) {
    item.Group? && Negated(item)
  }

  /** The top-level items that are, or are not, negated groups. */
  function TopOperations(items: seq<Item>, not: bool): seq<Operation> {
    if items == [] then []
    else
      (if IsNot(items[0]) != not then []
       else if not then [ItemOperation(items[0]).(kind := "NOT")] else [ItemOperation(items[0])])
      + TopOperations(items[1..], not)
  }

  /** Operations with a single condition join the root's conditions ... */
  function RootConditions(ops: seq<Operation>): seq<Condition> {
    if ops == [] then []
    else (if |ops[0].conditions| == 1 && ops[0].nested == [] then ops[0].conditions else []) + RootConditions(ops[1..])
  }

  /** ... larger ones are nested, and empty ones are dropped. */
  function RootNested(ops: seq<Operation>): seq<Operation> {
    if ops == [] then []
    else (if |ops[0].conditions| > 1 || |ops[0].nested| > 0 then [ops[0]] else []) + RootNested(ops[1..])
  }

  /** `tree_to_operations`. */
  function SavedOperations(t: SavedTree): seq<Operation> {
    var regular, nots := TopOperations(t.items, false), TopOperations(t.items, true);
    if t.items == [] then []
    else if regular == [] then nots
    else if |regular| == 1 then regular + nots
    else [Operation(LogicOr(t.internalLogic), RootConditions(regular), RootNested(regular))] + nots
  }

  /** How an item reads, as part of a saved inventory or of the filter converted from it. They
      differ for a negated group: the saved one unites its plain members. */
  function Value(item: Item, truth: Truth, saved: bool): Signed
    decreases item, 1
  {
    match item
    case Single(c) => Signed(false, truth(c))
    case Group(_, _, internal, items) =>
      var ss, logic := Values(items, truth, saved), LogicOr(internal);
      Signed(Negated(item) || logic == "NOT",
             if !Negated(item) then Combined(logic, ss)
             else if saved then Combined("NOT", ss)
             else logic != "NOT" && Combined(logic, ss))
  }

  function Values(items: seq<Item>, truth: Truth, saved: bool): seq<Signed>
    decreases items, 0
  {
    if items == [] then [] else [Value(items[0], truth, saved)] + Values(items[1..], truth, saved)
  }

  function Plain(items: seq<Item>): seq<Item> {
    if items == [] then [] else (if IsNot(items[0]) then [] else [items[0]]) + Plain(items[1..])
  }

  predicate AnyNot(items: seq<Item>, truth: Truth) {
    exists i | 0 <= i < |items| :: IsNot(items[i]) && Value(items[i], truth, true).value
  }

  /** The root's operands when there are several plain items: a group of one condition counts
      as that condition, an empty group does not count. */
  function RootValues(items: seq<Item>, truth: Truth): seq<Signed> {
    if items == [] then [] else RootValue(items[0], truth) + RootValues(items[1..], truth)
  }

  function RootValue(item: Item, truth: Truth): seq<Signed> {
    if IsNot(item) || (item.Group? && item.items == []) then []
    else if item.Group? && |item.items| == 1 && item.items[0].Single?
    then [Signed(false, truth(item.items[0].condition))]
    else [Value(item, truth, true)]
  }

  /** How a saved inventory reads. */
  predicate SavedHolds(t: SavedTree, truth: Truth) {
    var plain, logic := Plain(t.items), LogicOr(t.internalLogic);
    && plain != [] && !AnyNot(t.items, truth)
    && if |plain| == 1 then var only := Value(plain[0], truth, true); only.value && !only.negated
       else logic != "NOT" && Combined(logic, RootValues(t.items, truth))
  }

  lemma {:induction false} SavedItemsAgree(items: seq<Item>, q: Query, x: Device)
    ensures Operands(SavedConditions(items), ItemOperations(items), q, Values(items, At(q, x), true), x)
    decreases items, 0
  {
    if items == [] {
      AgreeNone(x);
      assert Matches([], q) + Results([], q, false) == [];
    } else {
      var rest := items[1..];
      SavedItemsAgree(rest, q, x);
      var conditions, nested, ss := SavedConditions(rest), ItemOperations(rest), Values(rest, At(q, x), true);
      if items[0].Single? {
        assert ItemOperations(items) == nested;
        OneMoreCondition(items[0].condition, conditions, nested, q, ss, x);
      } else {
        SavedItemMeaning(items[0], q, x);
        assert SavedConditions(items) == conditions;
        OneMoreOperation(Marked(items[0], ItemOperation(items[0])), conditions, nested, q, ss, x);
      }
    }
  }

  lemma {:induction false} SavedItemMeaning(item: Item, q: Query, x: Device)
    requires item.Group?
    ensures var op := Marked(item, ItemOperation(item));
            Signed(op.kind == "NOT", x in Execute(op, q)) == Value(item, At(q, x), true)
    decreases item, 1
  {
    SavedItemsAgree(item.items, q, x);
    OperandsCombine(Marked(item, ItemOperation(item)), q, Values(item.items, At(q, x), true), x);
  }

  lemma {:induction false} SingleCondition(c: Condition, q: Query)
    ensures Execute(Operation("AND", [c], []), q) == q(c)
  {
    assert [c][1..] == [];
    assert Matches([c], q) + Results([], q, false) == [q(c)];
  }

  /** A plain item's operation. */
  lemma {:induction false} PlainItemMeaning(item: Item, q: Query, x: Device)
    requires !IsNot(item)
    ensures var op := ItemOperation(item); Signed(op.kind == "NOT", x in Execute(op, q)) == Value(item, At(q, x), true)
  {
    if item.Single? {
      SingleCondition(item.condition, q);
    } else {
      SavedItemMeaning(item, q, x);
    }
  }

  lemma {:induction false} TopPlain(items: seq<Item>)
    ensures var ops, plain := TopOperations(items, false), Plain(items);
            |ops| == |plain| && forall i | 0 <= i < |ops| :: ops[i] == ItemOperation(plain[i]) && !IsNot(plain[i])
  {
    if items != [] {
      TopPlain(items[1..]);
    }
  }

  /** Two conditions and one to exclude, as sets of devices. */
  lemma {:induction false} ExecutesAsSets(a: Condition, b: Condition, c: Condition, q: Query)
    ensures var except := Operation("NOT", [c], []);
            && Execute(Operation("AND", [a, b], [except]), q) == q(a) * q(b) - q(c)
            && Execute(Operation("OR", [a, b], [except]), q) == (q(a) + q(b)) - q(c)
            && Execute(Operation("NOT", [a, b], [except]), q) == q(a) + q(b)
  {
    var except := Operation("NOT", [c], []);
    assert [a, b][1..] == [b] && [b][1..] == [] && [c][1..] == [] && [except][1..] == [];
    assert Matches([b], q) == [q(b)] + Matches([b][1..], q) && Matches([c], q) == [q(c)] + Matches([c][1..], q);
    assert Matches([a, b], q) == [q(a)] + Matches([a, b][1..], q);
    assert Matches([a, b], q) == [q(a), q(b)] && Matches([c], q) == [q(c)];
    assert Matches([c], q) + Results([], q, false) == [q(c)];
    assert [q(a), q(b)][1..] == [q(b)] && [q(b)][1..] == [] && [q(c)][1..] == [];
    assert Union([q(c)]) == q(c) + Union([]);
    assert Execute(except, q) == q(c);
    assert Results([], q, true) == [] && Results([], q, false) == [];
    assert Results([except], q, true) == [Execute(except, q)] + Results([except][1..], q, true);
    assert Results([except], q, false) == [] + Results([except][1..], q, false);
    assert Matches([a, b], q) + Results([except], q, false) == [q(a), q(b)];
    assert Union([q(a), q(b)]) == q(a) + Union([q(b)]) && Union([q(b)]) == q(b) + Union([]);
    assert Intersection([q(a), q(b)]) == q(a) * Intersection([q(b)]);
  }

  /** The top-level NOT operations exclude what the negated groups select. */
  lemma {:induction false} TopNots(items: seq<Item>, q: Query, x: Device)
    ensures forall i | 0 <= i < |TopOperations(items, true)| :: TopOperations(items, true)[i].kind == "NOT"
    ensures InAny(ExecuteAll(TopOperations(items, true), q), x) <==> AnyNot(items, At(q, x))
  {
    if items != [] {
      var item, rest := items[0], items[1..];
      TopNots(rest, q, x);
      AnyNotFirst(items, At(q, x));
      if IsNot(item) {
        var op := ItemOperation(item).(kind := "NOT");
        SavedItemMeaning(item, q, x);
        Prepended(Condition(None, None, None, None), [], op, TopOperations(rest, true), q);
        AddFirst(Execute(op, q), ExecuteAll(TopOperations(rest, true), q), x);
        assert TopOperations(items, true) == [op] + TopOperations(rest, true);
      } else {
        assert TopOperations(items, true) == TopOperations(rest, true);
      }
    }
  }

  lemma {:induction false} AnyNotFirst(items: seq<Item>, truth: Truth)
    requires items != []
    ensures AnyNot(items, truth)
            <==> (IsNot(items[0]) && Value(items[0], truth, true).value) || AnyNot(items[1..], truth)
  {
    var rest := items[1..];
    assert forall i | 0 <= i < |rest| :: rest[i] == items[i + 1];
    assert forall i | 0 < i < |items| :: items[i] == rest[i - 1];
  }

  /** Subtracting NOT operations, whatever was selected before. */
  lemma {:induction false} PreviewNots(selected: Devices, nots: seq<Operation>, q: Query, x: Device)
    requires forall i | 0 <= i < |nots| :: nots[i].kind == "NOT"
    ensures x in PreviewFrom(selected, nots, q) <==> x in selected && !InAny(ExecuteAll(nots, q), x)
    decreases |nots|
  {
    if nots != [] {
      var s := Execute(nots[0], q);
      assert nots[0].kind == "NOT";
      PreviewNots(if selected == {} then {} else selected - s, nots[1..], q, x);
      AddFirst(s, ExecuteAll(nots[1..], q), x);
    }
  }

  /** The root operation's operands. */
  lemma {:induction false} RootAgrees(items: seq<Item>, q: Query, x: Device)
    ensures var ops := TopOperations(items, false);
            Operands(RootConditions(ops), RootNested(ops), q, RootValues(items, At(q, x)), x)
  {
    if items == [] {
      AgreeNone(x);
      assert Matches([], q) + Results([], q, false) == [];
    } else {
      RootAgrees(items[1..], q, x);
      var item, rest := items[0], TopOperations(items[1..], false);
      if !IsNot(item) {
        var op := ItemOperation(item);
        var ops := [op] + rest;
        assert TopOperations(items, false) == ops && ops[0] == op && ops[1..] == rest;
        RootStep(item, rest, q, RootValues(items[1..], At(q, x)), x);
      } else {
        assert TopOperations(items, false) == rest;
        assert RootValues(items, At(q, x)) == RootValues(items[1..], At(q, x));
      }
    }
  }

  lemma {:induction false} RootStep(item: Item, rest: seq<Operation>, q: Query, ss: seq<Signed>, x: Device)
    requires !IsNot(item) && Operands(RootConditions(rest), RootNested(rest), q, ss, x)
    ensures var ops := [ItemOperation(item)] + rest;
            Operands(RootConditions(ops), RootNested(ops), q, RootValue(item, At(q, x)) + ss, x)
  {
    var op, v := ItemOperation(item), RootValue(item, At(q, x));
    var conditions, nested := RootConditions(rest), RootNested(rest);
    RootFirst(op, rest);
    if item.Single? {
      assert v == [Signed(false, x in q(item.condition))] && [] + nested == nested;
      OneMoreCondition(item.condition, conditions, nested, q, ss, x);
    } else {
      GroupSize(item);
      if item.items == [] {
        assert v + ss == ss && [] + conditions == conditions && [] + nested == nested;
      } else if |item.items| == 1 && item.items[0].Single? {
        var c := item.items[0].condition;
        assert v == [Signed(false, x in q(c))] && [] + nested == nested;
        OneMoreCondition(c, conditions, nested, q, ss, x);
      } else {
        PlainItemMeaning(item, q, x);
        assert v == [Signed(op.kind == "NOT", x in Execute(op, q))] && [] + conditions == conditions;
        OneMoreOperation(op, conditions, nested, q, ss, x);
      }
    }
  }

  lemma {:induction false} RootFirst(op: Operation, rest: seq<Operation>)
    ensures RootConditions([op] + rest)
            == (if |op.conditions| == 1 && op.nested == [] then op.conditions else []) + RootConditions(rest)
    ensures RootNested([op] + rest)
            == (if |op.conditions| > 1 || |op.nested| > 0 then [op] else []) + RootNested(rest)
  {
    assert ([op] + rest)[1..] == rest;
  }

  /** How many conditions and nested operations a group's operation has. */
  lemma {:induction false} GroupSize(item: Item)
    requires item.Group?
    ensures var op := ItemOperation(item);
            && |op.conditions| + |op.nested| == |item.items|
            && (|item.items| == 1 && item.items[0].Single? ==> op.conditions == [item.items[0].condition])
            && (|item.items| == 1 && item.items[0].Group? ==> op.conditions == [])
  {
    SizesAdd(item.items);
    if |item.items| == 1 {
      assert item.items[1..] == [];
    }
  }

  lemma {:induction false} SizesAdd(items: seq<Item>)
    ensures |SavedConditions(items)| + |ItemOperations(items)| == |items|
  {
    if items != [] {
      SizesAdd(items[1..]);
    }
  }

  /** Every saved tree selects exactly the devices of its reading; an empty one selects every
      device. */
  lemma {:induction false} SavedTreeSelects(t: SavedTree, q: Query, all: Devices, x: Device)
    ensures x in Preview(SavedOperations(t), q, all) <==> if t.items == [] then x in all else SavedHolds(t, At(q, x))
  {
    var regular, nots := TopOperations(t.items, false), TopOperations(t.items, true);
    TopPlain(t.items);
    TopNots(t.items, q, x);
    if t.items == [] {
    } else if regular == [] {
      TopSome(t.items);
      PreviewNots({}, nots, q, x);
    } else {
      var first := SavedOperations(t)[0];
      assert SavedOperations(t) == [first] + nots && ([first] + nots)[1..] == nots;
      var selected := if first.kind == "NOT" then {} else Execute(first, q);
      PreviewNots(selected, nots, q, x);
      if |regular| == 1 {
        PlainItemMeaning(Plain(t.items)[0], q, x);
      } else {
        RootAgrees(t.items, q, x);
        OperandsCombine(first, q, RootValues(t.items, At(q, x)), x);
      }
    }
  }

  lemma {:induction false} TopSome(items: seq<Item>)
    requires items != []
    ensures TopOperations(items, false) != [] || TopOperations(items, true) != []
  {
  }

  // ----- When the two agree -----

  /** A group both paths read alike: combined by AND or OR, and, if negated, without negated
      members and either an OR or of at most one member; the same for its members. */
  predicate Clean(item: Item)
    decreases item, 1
  {
    item.Group? ==>
      && LogicOr(item.internalLogic) in {"AND", "OR"}
      && (Negated(item) ==> (LogicOr(item.internalLogic) == "OR" || |item.items| <= 1) && NoneNegated(item.items))
      && CleanAll(item.items)
  }

  predicate CleanAll(items: seq<Item>)
    decreases items, 0
  {
    items == [] || (Clean(items[0]) && CleanAll(items[1..]))
  }

  predicate NoneNegated(items: seq<Item>) {
    forall i | 0 <= i < |items| :: !IsNot(items[i])
  }

  /** And a tree: a root AND holds no empty group, and a lone negated group is not empty. */
  predicate CleanTree(t: SavedTree) {
    && LogicOr(t.internalLogic) in {"AND", "OR"} && CleanAll(t.items)
    && (LogicOr(t.internalLogic) == "AND" ==>
          forall i | 0 <= i < |t.items| && t.items[i].Group? && !Negated(t.items[i]) :: t.items[i].items != [])
    && (Unwraps(t) ==> t.items[0].items != [])
  }

  /** The converted filter reads as the items do. */
  lemma {:induction false} ConvertedMeaning(item: Item, truth: Truth)
    ensures FixedMeaning(Converted(item), truth) == Value(item, truth, false)
    decreases item, 1
  {
    if item.Group? {
      ConvertedMeanings(item.items, truth);
    }
  }

  lemma {:induction false} ConvertedMeanings(items: seq<Item>, truth: Truth)
    ensures FixedMeanings(ConvertedAll(items), truth) == Values(items, truth, false)
    decreases items, 0
  {
    if items != [] {
      ConvertedMeaning(items[0], truth);
      ConvertedMeanings(items[1..], truth);
      assert ConvertedAll(items)[1..] == ConvertedAll(items[1..]);
    }
  }

  /** The tree as one plain group. */
  function RootItem(t: SavedTree): Item {
    Group(None, Some("AND"), t.internalLogic, t.items)
  }

  lemma {:induction false} FixedTreeHolds(t: SavedTree, truth: Truth)
    ensures FixedHolds(ConvertedTree(t), truth)
            <==> !Unwraps(t) && LogicOr(t.internalLogic) != "NOT" && Value(RootItem(t), truth, false).value
  {
    ConvertedMeanings(t.items, truth);
  }

  /** Combined by AND or OR. */
  predicate Spoken(item: Item) {
    item.Group? ==> LogicOr(item.internalLogic) in {"AND", "OR"}
  }

  predicate EmptyGroup(item: Item) {
    item.Group? && !Negated(item) && item.items == []
  }

  /** The signs are those of the items. */
  lemma {:induction false} RootSigns(items: seq<Item>, truth: Truth)
    requires forall i | 0 <= i < |items| :: Spoken(items[i])
    ensures var ss := Values(items, truth, true);
            (Excluded(ss) <==> AnyNot(items, truth)) && (AnyPlain(ss) <==> Plain(items) != [])
  {
    if items != [] {
      RootSigns(items[1..], truth);
      AnyNotFirst(items, truth);
      SignedFirst(Value(items[0], truth, true), Values(items[1..], truth, true));
      assert Spoken(items[0]);
      RootValueIs(items[0], truth);
    }
  }

  /** The root's operands select like the items: any of them always, all of them if no empty
      group was dropped. */
  lemma {:induction false} RootValuesAgree(items: seq<Item>, truth: Truth)
    requires forall i | 0 <= i < |items| :: Spoken(items[i])
    ensures forall i | 0 <= i < |RootValues(items, truth)| :: !RootValues(items, truth)[i].negated
    ensures SomeTrue(RootValues(items, truth)) <==> SomeTrue(Values(items, truth, true))
    ensures (forall i | 0 <= i < |items| :: !EmptyGroup(items[i])) ==>
              && (AllTrue(RootValues(items, truth)) <==> AllTrue(Values(items, truth, true)))
              && |RootValues(items, truth)| == |Plain(items)|
  {
    if items != [] {
      var item, rest := items[0], items[1..];
      RootValuesAgree(rest, truth);
      var v, rs := Value(item, truth, true), RootValues(rest, truth);
      assert Spoken(item);
      RootValueIs(item, truth);
      SignedFirst(v, Values(rest, truth, true));
      SignedFirst(v, rs);
      assert RootValues(items, truth) == if IsNot(item) || EmptyGroup(item) then rs else [v] + rs;
      assert !EmptyGroup(item) ==> |Plain(items)| == |Plain(rest)| + if IsNot(item) then 0 else 1;
    }
  }

  lemma {:induction false} RootValueIs(item: Item, truth: Truth)
    requires Spoken(item)
    ensures var v := Value(item, truth, true);
            && v.negated == IsNot(item)
            && RootValue(item, truth) == (if IsNot(item) || EmptyGroup(item) then [] else [v])
            && (EmptyGroup(item) ==> !v.value)
  {
    if item.Group? && |item.items| == 1 && item.items[0].Single? {
      assert item.items[1..] == [];
      assert Values(item.items, truth, true) == [Signed(false, truth(item.items[0].condition))];
    }
  }

  lemma {:induction false} OnlyPlain(items: seq<Item>, truth: Truth)
    requires forall i | 0 <= i < |items| :: Spoken(items[i])
    ensures |Plain(items)| == 1 ==>
              var v := Value(Plain(items)[0], truth, true); var ss := Values(items, truth, true);
              !v.negated && (SomeTrue(ss) <==> v.value) && (AllTrue(ss) <==> v.value)
    ensures Plain(items) == [] ==> !SomeTrue(Values(items, truth, true)) && AllTrue(Values(items, truth, true))
  {
    if items != [] {
      assert Spoken(items[0]);
      OnlyPlain(items[1..], truth);
      RootValueIs(items[0], truth);
      SignedFirst(Value(items[0], truth, true), Values(items[1..], truth, true));
    }
  }

  /** At the root the special cases of the saved inventory do not show, if all groups there
      are combined by AND or OR and an AND holds no empty group. */
  lemma {:induction false} SavedTreeHolds(t: SavedTree, truth: Truth)
    requires Spoken(RootItem(t)) && forall i | 0 <= i < |t.items| :: Spoken(t.items[i])
    requires LogicOr(t.internalLogic) == "AND" ==> forall i | 0 <= i < |t.items| :: !EmptyGroup(t.items[i])
    ensures SavedHolds(t, truth) <==> Value(RootItem(t), truth, true).value
  {
    RootSigns(t.items, truth);
    RootValuesAgree(t.items, truth);
    OnlyPlain(t.items, truth);
    var ss, rs := Values(t.items, truth, true), RootValues(t.items, truth);
    UnsignedSubtract(rs);
    assert SomeTrue(ss) ==> AnyPlain(ss);
  }

  /** Without signs nothing is excluded. */
  lemma {:induction false} UnsignedSubtract(ss: seq<Signed>)
    requires forall i | 0 <= i < |ss| :: !ss[i].negated
    ensures Subtract("OR", ss) <==> SomeTrue(ss)
    ensures Subtract("AND", ss) <==> ss != [] && AllTrue(ss)
    ensures |ss| == 1 ==> (SomeTrue(ss) <==> AllTrue(ss))
  {
    assert ss != [] ==> !ss[0].negated;
  }

  /** A clean item reads the same in both. */
  lemma {:induction false} CleanReadsAlike(item: Item, truth: Truth)
    requires Clean(item)
    ensures Value(item, truth, true) == Value(item, truth, false) && Value(item, truth, true).negated == IsNot(item)
    decreases item, 1
  {
    if item.Group? {
      CleanAllReadAlike(item.items, truth);
      var ss := Values(item.items, truth, true);
      if Negated(item) {
        UnsignedSubtract(ss);
        assert Combined("NOT", ss) <==> SomeTrue(ss);
      }
    }
  }

  lemma {:induction false} CleanAllReadAlike(items: seq<Item>, truth: Truth)
    requires CleanAll(items)
    ensures Values(items, truth, true) == Values(items, truth, false) && |Values(items, truth, true)| == |items|
    ensures forall i | 0 <= i < |items| :: Values(items, truth, true)[i].negated == IsNot(items[i])
    ensures forall i | 0 <= i < |items| :: Spoken(items[i])
    decreases items, 0
  {
    if items != [] {
      CleanReadsAlike(items[0], truth);
      CleanAllReadAlike(items[1..], truth);
    }
  }

  // ----- The two ways of naming an inventory -----

  function SavedSelection(t: SavedTree, q: Query, all: Devices): Devices {
    Preview(SavedOperations(t), q, all)
  }

  function FixedSelection(t: SavedTree, q: Query, all: Devices): Devices {
    Preview(FilterOperations(ConvertedTree(t)), q, all)
  }

  /** The saved inventory and the filter converted from it select the same devices. */
  predicate SelectAlike(t: SavedTree, q: Query, all: Devices) {
    FixedSelection(t, q, all) == SavedSelection(t, q, all)
  }

  /** For a clean tree, running against the saved inventory and running with the fixed filter
      converted from it select the same devices, whatever the conditions match. */
  lemma {:induction false} FixedFilterSelectsLikeInventory(t: SavedTree, q: Query, all: Devices)
    requires CleanTree(t)
    ensures SelectAlike(t, q, all)
  {
    var f := ConvertedTree(t);
    forall x
      ensures x in Preview(FilterOperations(f), q, all) <==> x in Preview(SavedOperations(t), q, all)
    {
      FixedFilterSelects(f, q, all, x);
      SavedTreeSelects(t, q, all, x);
      FixedTreeHolds(t, At(q, x));
      CleanAllReadAlike(t.items, At(q, x));
      SavedTreeHolds(t, At(q, x));
      if Unwraps(t) {
        assert t.items[1..] == [] && Plain(t.items) == [];
      }
    }
  }
}
