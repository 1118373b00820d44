/** Saved inventory conditions and the canvas filter they are converted to
    (backend/scripts/ai_inventory_filter.py), with the inverse conversion of the frontend
    (frontend/src/components/features/inventory/utils/tree-format-converters.ts). */
module FilterTree {
  import opened Common

  /** A single condition; `None` is a missing key. */
  datatype Condition = Condition(
    id: Option<string>, field: Option<string>, operator: Option<string>, value: Option<string>)

  /** Saved form: `logic` says whether the group is negated, `internalLogic` combines. */
  datatype Item =
    | Single(condition: Condition)
    | Group(id: Option<string>, logic: Option<string>, internalLogic: Option<string>, items: seq<Item>)

  datatype SavedTree = SavedTree(internalLogic: Option<string>, items: seq<Item>)

  /** Canvas form: `logic` combines, `negate` negates. The tree is itself a group. */
  datatype Filter =
    | Leaf(condition: Condition)
    | FilterGroup(id: Option<string>, logic: string, negate: bool, items: seq<Filter>)

  function LogicOr(logic: Option<string>): string {
    if logic.Some? then logic.value else "AND"
  }

  predicate Negated(g: Item)
    requires g.Group?
  {
    g.logic == Some("NOT")
  }

  // ----- Conversion -----

  function Converted(item: Item): Filter
    decreases item, 1
  {
    match item
    case Single(c) => Leaf(c)
    case Group(id, logic, internal, items) =>
      FilterGroup(id, LogicOr(internal), logic == Some("NOT"), ConvertedAll(items))
  }

  function ConvertedAll(items: seq<Item>): (r: seq<Filter>)
    ensures |r| == |items|
    decreases items, 0
  {
    if items == [] then [] else [Converted(items[0])] + ConvertedAll(items[1..])
  }

  /** A single top-level negated group becomes a negated root. */
  predicate Unwraps(t: SavedTree) {
    |t.items| == 1 && t.items[0].Group? && Negated(t.items[0])
  }

  function ConvertedTree(t: SavedTree): Filter {
    if Unwraps(t)
    then FilterGroup(Some("root"), LogicOr(t.items[0].internalLogic), true, ConvertedAll(t.items[0].items))
    else FilterGroup(Some("root"), LogicOr(t.internalLogic), false, ConvertedAll(t.items))
  }

  lemma {:induction false} ConvertedAllConcat(a: seq<Item>, item: Item)
    ensures ConvertedAll(a + [item]) == ConvertedAll(a) + [Converted(item)]
  {
    if a == [] {
      assert a + [item] == [item];
      assert ConvertedAll([item]) == [Converted(item)] + ConvertedAll([item][1..]);
    } else {
      assert (a + [item])[1..] == a[1..] + [item];
      ConvertedAllConcat(a[1..], item);
    }
  }

  /** `_convert_items`: fills a list in a loop. */
  method ConvertItems(items: seq<Item>) returns (converted: seq<Filter>)
    ensures converted == ConvertedAll(items)
    decreases items, 0
  {
    converted := [];
    var i := 0;
    while i < |items|
      invariant i <= |items| && converted == ConvertedAll(items[..i])
    {
      assert items[..i + 1] == items[..i] + [items[i]];
      ConvertedAllConcat(items[..i], items[i]);
      if items[i].Group? {
        var group := ConvertGroup(items[i]);
        converted := converted + [group];
      } else {
        converted := converted + [Leaf(items[i].condition)];
      }
      i := i + 1;
    }
    assert items[..i] == items;
  }

  /** `_convert_group`. */
  method ConvertGroup(group: Item) returns (filter: Filter)
    requires group.Group?
    ensures filter == Converted(group)
    ensures filter.FilterGroup? && filter.id == group.id && |filter.items| == |group.items|
    ensures filter.logic == if group.internalLogic.None? then "AND" else group.internalLogic.value
    ensures filter.negate <==> group.logic == Some("NOT")
    decreases group, 1
  {
    var items := ConvertItems(group.items);
    filter := FilterGroup(group.id, LogicOr(group.internalLogic), Negated(group), items);
  }

  /** `condition_tree_to_filter_tree`. */
  method ConditionTreeToFilterTree(t: SavedTree) returns (filter: Filter)
    ensures filter == ConvertedTree(t)
    ensures filter.FilterGroup? && filter.id == Some("root")
    ensures var lone := |t.items| == 1 && t.items[0].Group? && t.items[0].logic == Some("NOT");
            var logic := if lone then t.items[0].internalLogic else t.internalLogic;
            && (filter.negate <==> lone)
            && filter.logic == (if logic.None? then "AND" else logic.value)
            && filter.items == ConvertedAll(if lone then t.items[0].items else t.items)
  {
    var items := ConvertItems(t.items);
    filter := FilterGroup(Some("root"), LogicOr(t.internalLogic), false, items);
    if |t.items| == 1 && t.items[0].Group? && Negated(t.items[0]) {
      var notGroup := t.items[0];
      items := ConvertItems(notGroup.items);
      filter := FilterGroup(Some("root"), LogicOr(notGroup.internalLogic), true, items);
    }
  }

  // ----- Meaning -----

  /** What a group contributes to its parent: its own value and whether it is negated. How a
      parent uses the sign is left open. */
  datatype Signed = Signed(negated: bool, value: bool)

  /** How a combinator name combines its operands; nothing is assumed about it. */
  type Combine = (string, seq<Signed>) -> bool

  /** How the root's value and sign decide; nothing is assumed about that either. */
  type Root = Signed -> bool

  type Truth = Condition -> bool

  function Meaning(item: Item, truth: Truth, combine: Combine): Signed
    decreases item, 1
  {
    match item
    case Single(c) => Signed(false, truth(c))
    case Group(_, logic, internal, items) =>
      Signed(logic == Some("NOT"), combine(LogicOr(internal), Meanings(items, truth, combine)))
  }

  function Meanings(items: seq<Item>, truth: Truth, combine: Combine): seq<Signed>
    decreases items, 0
  {
    if items == [] then [] else [Meaning(items[0], truth, combine)] + Meanings(items[1..], truth, combine)
  }

  /** The saved tree's root carries no sign of its own. */
  function TreeHolds(t: SavedTree, truth: Truth, combine: Combine, root: Root): bool {
    root(Signed(false, combine(LogicOr(t.internalLogic), Meanings(t.items, truth, combine))))
  }

  function FilterMeaning(f: Filter, truth: Truth, combine: Combine): Signed
    decreases f, 1
  {
    match f
    case Leaf(c) => Signed(false, truth(c))
    case FilterGroup(_, logic, negate, items) => Signed(negate, combine(logic, FilterMeanings(items, truth, combine)))
  }

  function FilterMeanings(items: seq<Filter>, truth: Truth, combine: Combine): seq<Signed>
    decreases items, 0
  {
    if items == [] then [] else [FilterMeaning(items[0], truth, combine)] + FilterMeanings(items[1..], truth, combine)
  }

  function FilterHolds(f: Filter, truth: Truth, combine: Combine, root: Root): bool {
    root(FilterMeaning(f, truth, combine))
  }

  /** Below the root the conversion preserves the meaning for any combinators whatever. */
  lemma {:induction false} ItemMeaning(item: Item, truth: Truth, combine: Combine)
    ensures FilterMeaning(Converted(item), truth, combine) == Meaning(item, truth, combine)
    decreases item, 1
  {
    if item.Group? {
      ItemsMeaning(item.items, truth, combine);
    }
  }

  lemma {:induction false} ItemsMeaning(items: seq<Item>, truth: Truth, combine: Combine)
    ensures FilterMeanings(ConvertedAll(items), truth, combine) == Meanings(items, truth, combine)
    decreases items, 0
  {
    if items != [] {
      ItemMeaning(items[0], truth, combine);
      ItemsMeaning(items[1..], truth, combine);
      assert ConvertedAll(items)[1..] == ConvertedAll(items[1..]);
    }
  }

  /** Main result: the converted tree means the same as the saved one, for every truth
      assignment and every reading of combinators and signs, exactly when it did not unwrap a
      negated group, or a negated root decides as a root around that one negated group. */
  lemma TreeMeaning(t: SavedTree, truth: Truth, combine: Combine, root: Root)
    ensures FilterHolds(ConvertedTree(t), truth, combine, root) == TreeHolds(t, truth, combine, root)
            <==> (Unwraps(t) ==>
                    var only := Meaning(t.items[0], truth, combine);
                    root(only) == root(Signed(false, combine(LogicOr(t.internalLogic), [only]))))
  {
    ItemsMeaning(t.items, truth, combine);
    if Unwraps(t) {
      ItemsMeaning(t.items[0].items, truth, combine);
      assert Meanings(t.items, truth, combine) == [Meaning(t.items[0], truth, combine)];
    }
  }

  // ----- Two readings -----

  /** The Boolean reading: a sign complements. */
  predicate Complement(s: Signed) {
    s.value != s.negated
  }

  /** AND and OR of complemented operands, with any value for no operands; other names are free. */
  ghost predicate Boolean(combine: Combine) {
    && (forall ss :: ss != [] ==> (combine("AND", ss) <==> forall i | 0 <= i < |ss| :: Complement(ss[i])))
    && (forall ss :: ss != [] ==> (combine("OR", ss) <==> exists i | 0 <= i < |ss| :: Complement(ss[i])))
  }

  /** Every tree whose root combines with AND or OR keeps its Boolean meaning, whatever an
      empty AND or OR is taken to mean. */
  lemma BooleanMeaningPreserved(t: SavedTree, truth: Truth, combine: Combine)
    requires Boolean(combine) && LogicOr(t.internalLogic) in {"AND", "OR"}
    ensures FilterHolds(ConvertedTree(t), truth, combine, Complement) == TreeHolds(t, truth, combine, Complement)
  {
    TreeMeaning(t, truth, combine, Complement);
    if Unwraps(t) {
      var ss := [Meaning(t.items[0], truth, combine)];
      assert Complement(ss[0]) <==> exists i | 0 <= i < |ss| :: Complement(ss[i]);
    }
  }

  predicate Excluded(ss: seq<Signed>) {
    exists i | 0 <= i < |ss| :: ss[i].negated && ss[i].value
  }

  predicate AnyPlain(ss: seq<Signed>) {
    exists i | 0 <= i < |ss| :: !ss[i].negated
  }

  /** The device evaluator's reading: negated operands are subtracted from what the plain
      ones select, and without a plain operand nothing is selected. */
  predicate Subtract(logic: string, ss: seq<Signed>) {
    && !Excluded(ss)
    && (if logic == "AND" then AnyPlain(ss) && forall i | 0 <= i < |ss| && !ss[i].negated :: ss[i].value
        else logic == "OR" && exists i | 0 <= i < |ss| :: !ss[i].negated && ss[i].value)
  }

  /** A negated root has nothing to subtract from. */
  predicate Remainder(s: Signed) {
    s.value && !s.negated
  }

  /** In the evaluator's reading every tree keeps its meaning. */
  lemma SubtractiveMeaningPreserved(t: SavedTree, truth: Truth)
    ensures FilterHolds(ConvertedTree(t), truth, Subtract, Remainder) == TreeHolds(t, truth, Subtract, Remainder)
  {
    TreeMeaning(t, truth, Subtract, Remainder);
  }

  // ----- Leaves -----

  function Leaves(items: seq<Item>): seq<Condition> {
    if items == [] then []
    else (match items[0] case Single(c) => [c] case Group(_, _, _, sub) => Leaves(sub)) + Leaves(items[1..])
  }

  function FilterLeaves(items: seq<Filter>): seq<Condition> {
    if items == [] then []
    else (match items[0] case Leaf(c) => [c] case FilterGroup(_, _, _, sub) => FilterLeaves(sub))
         + FilterLeaves(items[1..])
  }

  lemma {:induction false} LeavesKept(items: seq<Item>)
    ensures FilterLeaves(ConvertedAll(items)) == Leaves(items)
  {
    if items != [] {
      if items[0].Group? {
        LeavesKept(items[0].items);
      }
      LeavesKept(items[1..]);
      assert ConvertedAll(items)[1..] == ConvertedAll(items[1..]);
    }
  }

  /** Every condition is kept, unchanged and in order. */
  lemma TreeLeavesKept(t: SavedTree)
    ensures FilterLeaves(ConvertedTree(t).items) == Leaves(t.items)
  {
    LeavesKept(t.items);
    if Unwraps(t) {
      LeavesKept(t.items[0].items);
      assert Leaves(t.items[1..]) == [];
      assert Leaves(t.items) == Leaves(t.items[0].items) + [];
    }
  }

  // ----- The frontend's inverse -----

  /** `convertFilterGroup` below the root. */
  function Saved(f: Filter): Item
    decreases f, 1
  {
    match f
    case Leaf(c) => Single(c)
    case FilterGroup(id, logic, negate, items) =>
      Group(id, Some(if negate then "NOT" else "AND"), Some(logic), SavedAll(items))
  }

  function SavedAll(items: seq<Filter>): seq<Item>
    decreases items, 0
  {
    if items == [] then [] else [Saved(items[0])] + SavedAll(items[1..])
  }

  /** `filterTreeToConditionTree`. */
  function SavedFrom(f: Filter): SavedTree
    requires f.FilterGroup?
  {
    if f.negate then SavedTree(Some("AND"), [Group(f.id, Some("NOT"), Some(f.logic), SavedAll(f.items))])
    else SavedTree(Some(f.logic), SavedAll(f.items))
  }

  lemma {:induction false} ItemRoundTrip(f: Filter)
    ensures Converted(Saved(f)) == f
    decreases f, 1
  {
    if f.FilterGroup? {
      ItemsRoundTrip(f.items);
    }
  }

  lemma {:induction false} ItemsRoundTrip(items: seq<Filter>)
    ensures ConvertedAll(SavedAll(items)) == items
    decreases items, 0
  {
    if items != [] {
      ItemRoundTrip(items[0]);
      ItemsRoundTrip(items[1..]);
      assert SavedAll(items)[1..] == SavedAll(items[1..]);
    }
  }

  /** Saving a filter and converting it back gives the same filter exactly when its id is
      "root" and it is not a plain root around one negated group. */
  lemma RoundTripIff(f: Filter)
    requires f.FilterGroup?
    ensures ConvertedTree(SavedFrom(f)) == f
            <==> f.id == Some("root")
                 && (f.negate || !(|f.items| == 1 && f.items[0].FilterGroup? && f.items[0].negate))
  {
    ItemsRoundTrip(f.items);
    if !f.negate && |f.items| == 1 {
      assert SavedAll(f.items) == [Saved(f.items[0])] + SavedAll(f.items[1..]);
      assert SavedAll(f.items[1..]) == [];
    } else if !f.negate {
      assert |ConvertedAll(SavedAll(f.items))| == |SavedAll(f.items)|;
    }
  }

  // ----- Stored conditions -----

  /** A stored `conditions` value, as far as the entry point looks into it. */
  datatype Stored = NotAList | List(entries: seq<Entry>)
  datatype Entry = NotADict | Dict(version: Option<int>, tree: Option<StoredTree>)
  datatype StoredTree = StoredTree(kind: Option<string>, tree: SavedTree)

  function EmptyTree(): Filter {
    FilterGroup(Some("root"), "AND", false, [])
  }

  /** `saved_conditions_to_device_filter`: malformed input selects like an empty tree. */
  method SavedConditionsToDeviceFilter(s: Stored) returns (f: Filter)
    ensures f == if s.List? && |s.entries| > 0 && s.entries[0].Dict? && s.entries[0].version == Some(2)
                    && s.entries[0].tree.Some? && s.entries[0].tree.value.kind == Some("root")
                 then ConvertedTree(s.entries[0].tree.value.tree)
                 else FilterGroup(Some("root"), "AND", false, [])
  {
    if s.NotAList? || s.entries == [] {
      return EmptyTree();
    }
    var first := s.entries[0];
    if first.NotADict? || first.version != Some(2) {
      return EmptyTree();
    }
    if first.tree.None? || first.tree.value.kind != Some("root") {
      return EmptyTree();
    }
    f := ConditionTreeToFilterTree(first.tree.value.tree);
  }
}
