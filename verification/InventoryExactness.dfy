/** When a saved inventory and the filter converted from it select the same devices whatever
    the conditions match: an exact condition on the tree, for all trees combined by AND and OR
    in which no condition occurs twice
    (backend/utils/inventory_converter.py, backend/workflow_steps/get_nautobot_devices/executor.py). */
module InventoryExactness {
  import opened Common
  import opened FilterTree
  import opened InventorySelection

  /** What a condition asks for; its id plays no part. */
  function Contents(c: Condition): Condition {
    c.(id := None)
  }

  function Asked(item: Item): set<Condition> {
    match item
    case Single(c) => {Contents(c)}
    case Group(_, _, _, items) => set i, c | 0 <= i < |items| && c in Asked(items[i]) :: c
  }

  /** No two conditions ask for the same. */
  predicate Apart(item: Item) {
    item.Group? ==>
      && (forall i, j | 0 <= i < j < |item.items| :: Asked(item.items[i]) !! Asked(item.items[j]))
      && (forall i | 0 <= i < |item.items| :: Apart(item.items[i]))
  }

  /** Every group combines by AND or OR. */
  predicate AllSpoken(item: Item) {
    item.Group? ==> Spoken(item) && forall i | 0 <= i < |item.items| :: AllSpoken(item.items[i])
  }

  // ----- The condition -----

  /** An item that some answers make hold: an AND of plain members all of which are live, or
      an OR with a live one. */
  predicate Live(item: Item)
    decreases item, 1
  {
    item.Group? ==>
      && SomeLive(item)
      && (LogicOr(item.internalLogic) == "AND" ==>
            forall i | 0 <= i < |item.items| && !IsNot(item.items[i]) :: Live(item.items[i]))
  }

  predicate SomeLive(group: Item)
    requires group.Group?
    decreases group, 0
  {
    exists i | 0 <= i < |group.items| :: !IsNot(group.items[i]) && Live(group.items[i])
  }

  /** The two paths read the item alike. A plain group: it never holds, or its members are read
      alike. A negated group: nothing in it is live, or nothing live in it is negated, its plain
      members are read alike, and if it is an AND there is only one of them. */
  predicate Alike(item: Item) {
    item.Group? ==>
      if !Negated(item) then
        Live(item) ==> forall i | 0 <= i < |item.items| :: Alike(item.items[i])
      else
        SomeLive(item) ==>
          && (forall i | 0 <= i < |item.items| && IsNot(item.items[i]) :: !Live(item.items[i]))
          && (forall i | 0 <= i < |item.items| && !IsNot(item.items[i]) :: Alike(item.items[i]))
          && (LogicOr(item.internalLogic) == "AND" ==> OnePlain(item.items))
  }

  predicate OnePlain(items: seq<Item>) {
    forall i, j | 0 <= i < |items| && 0 <= j < |items| && !IsNot(items[i]) && !IsNot(items[j]) :: i == j
  }

  /** A plain member that is not empty. */
  predicate Filled(item: Item) {
    !IsNot(item) && !EmptyGroup(item)
  }

  /** At the root a lone NOT group must not be empty; an AND with an empty group must otherwise
      hold nothing or something that never holds. */
  predicate TreeAlike(t: SavedTree) {
    if t.items == [] then true
    else if Unwraps(t) then t.items[0].items != []
    else if LogicOr(t.internalLogic) == "AND" && exists i | 0 <= i < |t.items| :: EmptyGroup(t.items[i]) then
      (exists i | 0 <= i < |t.items| :: Filled(t.items[i])) ==>
        exists i | 0 <= i < |t.items| :: Filled(t.items[i]) && !Live(t.items[i])
    else Alike(RootItem(t))
  }

  // ----- Truth assignments -----

  /** The assignment under which exactly the given conditions hold. */
  function Picks(s: set<Condition>): Truth {
    c => Contents(c) in s
  }

  lemma {:induction false} ValuesAt(items: seq<Item>, truth: Truth, saved: bool)
    ensures |Values(items, truth, saved)| == |items|
    ensures forall i | 0 <= i < |items| :: Values(items, truth, saved)[i] == Value(items[i], truth, saved)
  {
    if items != [] {
      ValuesAt(items[1..], truth, saved);
      assert forall i | 0 < i < |items| :: items[i] == items[1..][i - 1];
    }
  }

  /** The value of an item depends on its own conditions only. */
  lemma {:induction false} Local(item: Item, a: Truth, b: Truth, saved: bool)
    requires forall c | Contents(c) in Asked(item) :: a(c) == b(c)
    ensures Value(item, a, saved) == Value(item, b, saved)
  {
    if item.Group? {
      var items := item.items;
      forall i | 0 <= i < |items|
        ensures Value(items[i], a, saved) == Value(items[i], b, saved)
      {
        assert forall c | c in Asked(items[i]) :: c in Asked(item);
        Local(items[i], a, b, saved);
      }
      ValuesAt(items, a, saved);
      ValuesAt(items, b, saved);
      assert Values(items, a, saved) == Values(items, b, saved);
    }
  }

  lemma {:induction false} LocalPicks(item: Item, a: set<Condition>, b: set<Condition>, saved: bool)
    requires a * Asked(item) == b * Asked(item)
    ensures Value(item, Picks(a), saved) == Value(item, Picks(b), saved)
  {
    forall c | Contents(c) in Asked(item)
      ensures Picks(a)(c) == Picks(b)(c)
    {
      assert Contents(c) in a * Asked(item) <==> Contents(c) in b * Asked(item);
    }
    Local(item, Picks(a), Picks(b), saved);
  }

  /** If none of its conditions holds, an item does not hold. */
  lemma {:induction false} NothingHolds(item: Item, s: set<Condition>, saved: bool)
    requires s !! Asked(item)
    ensures !Value(item, Picks(s), saved).value
  {
    match item
    case Single(c) =>
      assert Contents(c) in Asked(item);
    case Group(_, _, _, items) =>
      var ss := Values(items, Picks(s), saved);
      ValuesAt(items, Picks(s), saved);
      forall i | 0 <= i < |items|
        ensures !ss[i].value
      {
        assert forall c | c in Asked(items[i]) :: c in Asked(item);
        NothingHolds(items[i], s, saved);
      }
  }

  /** Conditions that make a live item hold: those of its live plain members. */
  function Makes(item: Item): set<Condition> {
    match item
    case Single(c) => {Contents(c)}
    case Group(_, _, _, items) =>
      set i, c | 0 <= i < |items| && !IsNot(items[i]) && Live(items[i]) && c in Makes(items[i]) :: c
  }

  /** The same without the member `skip`. */
  function MakesBut(item: Item, skip: nat): set<Condition>
    requires item.Group?
  {
    set i, c | 0 <= i < |item.items| && i != skip && !IsNot(item.items[i]) && Live(item.items[i])
               && c in Makes(item.items[i]) :: c
  }

  lemma {:induction false} MakesAreAsked(item: Item)
    ensures Makes(item) <= Asked(item)
  {
    if item.Group? {
      MakesButAreAsked(item, |item.items|);
    }
  }

  lemma {:induction false} MakesButAreAsked(item: Item, skip: nat)
    requires item.Group?
    ensures MakesBut(item, skip) <= Asked(item)
    decreases item, 0
  {
    forall c | c in MakesBut(item, skip)
      ensures c in Asked(item)
    {
      var i :| 0 <= i < |item.items| && i != skip && !IsNot(item.items[i]) && Live(item.items[i])
               && c in Makes(item.items[i]);
      MakesAreAsked(item.items[i]);
    }
  }

  lemma {:induction false} MembersApart(item: Item, i: nat, j: nat)
    requires item.Group? && Apart(item) && i < |item.items| && j < |item.items| && i != j
    ensures Asked(item.items[i]) !! Asked(item.items[j])
  {
  }

  /** What such a choice means for one member. */
  lemma {:induction false} MakesButAt(item: Item, skip: nat, i: nat)
    requires item.Group? && Apart(item) && i < |item.items|
    ensures if i != skip && !IsNot(item.items[i]) && Live(item.items[i])
            then MakesBut(item, skip) * Asked(item.items[i]) == Makes(item.items[i])
            else MakesBut(item, skip) !! Asked(item.items[i])
  {
    var member := item.items[i];
    MakesAreAsked(member);
    forall j | 0 <= j < |item.items| && j != i
      ensures Makes(item.items[j]) !! Asked(member)
    {
      MakesAreAsked(item.items[j]);
      MembersApart(item, j, i);
    }
    forall c | c in MakesBut(item, skip) && c in Asked(member)
      ensures i != skip && !IsNot(member) && Live(member) && c in Makes(member)
    {
      var j :| 0 <= j < |item.items| && j != skip && !IsNot(item.items[j]) && Live(item.items[j])
               && c in Makes(item.items[j]);
      assert i == j;
    }
  }

  lemma {:induction false} Signs(items: seq<Item>, truth: Truth, saved: bool, i: nat)
    requires i < |items| && Spoken(items[i])
    ensures Value(items[i], truth, saved).negated == IsNot(items[i])
  {
  }

  /** Only live items hold; of a negated group in the saved inventory one member suffices. */
  lemma {:induction false} HoldsOnlyIfLive(item: Item, truth: Truth, saved: bool)
    requires AllSpoken(item)
    ensures Value(item, truth, saved).value ==> if saved && IsNot(item) then SomeLive(item) else Live(item)
  {
    if item.Group? && Value(item, truth, saved).value {
      var ss := Values(item.items, truth, saved);
      ValuesAt(item.items, truth, saved);
      forall i | 0 <= i < |item.items|
        ensures ss[i].negated == IsNot(item.items[i])
        ensures !IsNot(item.items[i]) && ss[i].value ==> Live(item.items[i])
      {
        assert AllSpoken(item.items[i]);
        Signs(item.items, truth, saved, i);
        HoldsOnlyIfLive(item.items[i], truth, saved);
      }
      TrueHasAPlainOne(LogicOr(item.internalLogic), ss);
    }
  }

  lemma {:induction false} TrueHasAPlainOne(logic: string, ss: seq<Signed>)
    ensures Combined(logic, ss) ==> SomeTrue(ss)
    ensures Combined("AND", ss) ==> AllTrue(ss)
  {
  }

  /** Under such an assignment a live item holds, in both readings. */
  lemma {:induction false} MakesHolds(item: Item, s: set<Condition>, saved: bool)
    requires AllSpoken(item) && Apart(item) && Live(item) && s * Asked(item) == Makes(item)
    ensures Value(item, Picks(s), saved).value
    decreases item, 1
  {
    match item
    case Single(c) =>
      assert Contents(c) in s * Asked(item);
    case Group(_, _, internal, items) =>
      var ss := Values(items, Picks(s), saved);
      ValuesAt(items, Picks(s), saved);
      assert Makes(item) == MakesBut(item, |items|);
      forall i | 0 <= i < |items|
        ensures ss[i] == Signed(IsNot(items[i]), !IsNot(items[i]) && Live(items[i]))
      {
        assert s * Asked(items[i]) == Makes(item) * Asked(items[i]) by {
          forall c | c in Asked(items[i])
            ensures c in s <==> c in Makes(item)
          {
            assert c in Asked(item);
            assert c in s * Asked(item) <==> c in Makes(item);
          }
        }
        MemberOf(item, s, |items|, i, saved);
      }
      var p :| 0 <= p < |items| && !IsNot(items[p]) && Live(items[p]);
      assert ss[p].value && !ss[p].negated;
  }

  /** A member under an assignment that makes all live plain members but `skip` hold. */
  lemma {:induction false} MemberOf(item: Item, s: set<Condition>, skip: nat, i: nat, saved: bool)
    requires item.Group? && AllSpoken(item) && Apart(item) && i < |item.items| && i != skip
    requires s * Asked(item.items[i]) == MakesBut(item, skip) * Asked(item.items[i])
    ensures Value(item.items[i], Picks(s), saved)
            == Signed(IsNot(item.items[i]), !IsNot(item.items[i]) && Live(item.items[i]))
    decreases item, 0
  {
    var member := item.items[i];
    MakesButAt(item, skip, i);
    assert AllSpoken(member) && Apart(member);
    Signs(item.items, Picks(s), saved, i);
    if !IsNot(member) && Live(member) {
      MakesHolds(member, s, saved);
    } else {
      assert MakesBut(item, skip) * Asked(member) == {};
      assert forall c | c in s && c in Asked(member) :: c in s * Asked(member);
      NothingHolds(member, s, saved);
    }
  }

  // ----- An item that is alike reads alike -----

  lemma {:induction false} AlikeReadsAlike(item: Item, truth: Truth)
    requires AllSpoken(item) && Alike(item)
    ensures Value(item, truth, true).value == Value(item, truth, false).value
    decreases item, 1
  {
    HoldsOnlyIfLive(item, truth, true);
    HoldsOnlyIfLive(item, truth, false);
    if item.Group? && (if Negated(item) then SomeLive(item) else Live(item)) {
      MembersReadAlike(item, truth);
      var a, b := Values(item.items, truth, true), Values(item.items, truth, false);
      if Negated(item) {
        NotExcluded(LogicOr(item.internalLogic), b);
        assert SomeTrue(a) <==> SomeTrue(b);
      } else {
        assert a == b;
      }
    }
  }

  /** With nothing excluded and, in an AND, one plain operand, both combinators unite. */
  lemma {:induction false} NotExcluded(logic: string, ss: seq<Signed>)
    requires !Excluded(ss) && AnyPlain(ss) && logic in {"AND", "OR"}
    requires logic == "AND" ==>
               forall i, j | 0 <= i < |ss| && 0 <= j < |ss| && !ss[i].negated && !ss[j].negated :: i == j
    ensures Combined(logic, ss) <==> SomeTrue(ss)
  {
  }

  lemma {:induction false} MembersReadAlike(item: Item, truth: Truth)
    requires item.Group? && AllSpoken(item) && Alike(item)
    requires if Negated(item) then SomeLive(item) else Live(item)
    ensures var a, b := Values(item.items, truth, true), Values(item.items, truth, false);
            && |a| == |b| == |item.items|
            && (forall i | 0 <= i < |a| :: a[i].negated == b[i].negated == IsNot(item.items[i]))
            && (forall i | 0 <= i < |a| && (!Negated(item) || !IsNot(item.items[i])) :: a[i] == b[i])
            && (Negated(item) ==> !Excluded(b) && AnyPlain(b))
    decreases item, 0
  {
    var items := item.items;
    var a, b := Values(items, truth, true), Values(items, truth, false);
    ValuesAt(items, truth, true);
    ValuesAt(items, truth, false);
    forall i | 0 <= i < |items|
      ensures a[i].negated == b[i].negated == IsNot(items[i])
      ensures !Negated(item) || !IsNot(items[i]) ==> a[i] == b[i]
      ensures Negated(item) && IsNot(items[i]) ==> !b[i].value
    {
      assert AllSpoken(items[i]);
      Signs(items, truth, true, i);
      Signs(items, truth, false, i);
      if !Negated(item) || !IsNot(items[i]) {
        AlikeReadsAlike(items[i], truth);
      } else {
        HoldsOnlyIfLive(items[i], truth, false);
      }
    }
    if Negated(item) {
      var p :| 0 <= p < |items| && !IsNot(items[p]) && Live(items[p]);
      assert !b[p].negated;
    }
  }

  // ----- An item that is not can be told -----

  /** All other members do not hold: a plain member decides a union, or an AND in which it is the
      only plain one. */
  lemma {:induction false} DecidesUnion(ss: seq<Signed>, m: nat)
    requires m < |ss| && !ss[m].negated && forall i | 0 <= i < |ss| && i != m :: !ss[i].value
    ensures Combined("OR", ss) == Combined("NOT", ss) == ss[m].value
    ensures (forall i | 0 <= i < |ss| && i != m :: ss[i].negated) ==> Combined("AND", ss) == ss[m].value
  {
    if ss[m].value {
      assert SomeTrue(ss);
    }
  }

  /** Only plain other members hold. In an AND where all of them do, a plain member decides for
      it; a negated one decides against an AND or an OR that would hold without it. */
  lemma {:induction false} DecidesRest(ss: seq<Signed>, m: nat, p: nat)
    requires m < |ss| && p < |ss| && !ss[p].negated && (p != m ==> ss[p].value)
    requires forall i | 0 <= i < |ss| && i != m && ss[i].negated :: !ss[i].value
    ensures !ss[m].negated && (forall i | 0 <= i < |ss| && i != m && !ss[i].negated :: ss[i].value) ==>
              Combined("AND", ss) == ss[m].value
    ensures ss[m].negated ==> Combined("OR", ss) == !ss[m].value
    ensures ss[m].negated && (forall i | 0 <= i < |ss| && i != m && !ss[i].negated :: ss[i].value) ==>
              Combined("AND", ss) == !ss[m].value
  {
    if ss[m].negated {
      assert p != m && ss[p].value;
    }
  }

  /** Some assignment to its own conditions tells the two readings apart. */
  ghost predicate Tells(item: Item, s: set<Condition>) {
    s <= Asked(item) && Value(item, Picks(s), true).value != Value(item, Picks(s), false).value
  }

  /** A choice for member `m` and the making of the others do not get in each other's way. */
  lemma {:induction false} SplitAt(item: Item, m: nat, own: set<Condition>, i: nat)
    requires item.Group? && Apart(item) && m < |item.items| && own <= Asked(item.items[m]) && i < |item.items|
    ensures var s := MakesBut(item, m) + own;
            s * Asked(item.items[i]) == if i == m then own else MakesBut(item, m) * Asked(item.items[i])
  {
    var asked := Asked(item.items[i]);
    assert (MakesBut(item, m) + own) * asked == MakesBut(item, m) * asked + own * asked;
    if i == m {
      MakesButAt(item, m, m);
      assert MakesBut(item, m) * asked == {} && {} + own * asked == own;
    } else {
      MembersApart(item, i, m);
      assert own * asked == {};
    }
  }

  /** A negated group with a live negated member: the saved inventory overlooks that member. */
  lemma {:induction false} NotInNotTells(item: Item, n: nat) returns (s: set<Condition>)
    requires item.Group? && Negated(item) && SomeLive(item) && AllSpoken(item) && Apart(item)
    requires n < |item.items| && IsNot(item.items[n]) && Live(item.items[n])
    ensures Tells(item, s)
  {
    var items := item.items;
    s := MakesBut(item, n) + Makes(items[n]);
    MakesAreAsked(items[n]);
    MakesButAreAsked(item, n);
    assert forall c | c in Asked(items[n]) :: c in Asked(item);
    var p :| 0 <= p < |items| && !IsNot(items[p]) && Live(items[p]);
    SplitAt(item, n, Makes(items[n]), p);
    SplitAt(item, n, Makes(items[n]), n);
    forall saved: bool
      ensures Value(items[p], Picks(s), saved) == Signed(false, true)
      ensures Value(items[n], Picks(s), saved) == Signed(true, true)
    {
      MemberOf(item, s, n, p, saved);
      assert AllSpoken(items[n]) && Apart(items[n]);
      MakesHolds(items[n], s, saved);
      Signs(items, Picks(s), saved, n);
    }
    ValuesAt(items, Picks(s), true);
    ValuesAt(items, Picks(s), false);
    assert SomeTrue(Values(items, Picks(s), true));
    assert Excluded(Values(items, Picks(s), false));
  }

  /** A negated AND of a live plain member `p` and another one: the saved inventory excludes what
      either selects. */
  lemma {:induction false} NotOverAndTells(item: Item, p: nat, o: nat) returns (s: set<Condition>)
    requires item.Group? && Negated(item) && LogicOr(item.internalLogic) == "AND" && AllSpoken(item) && Apart(item)
    requires p < |item.items| && o < |item.items| && p != o && !IsNot(item.items[p]) && !IsNot(item.items[o])
    requires Live(item.items[p])
    ensures Tells(item, s)
  {
    var items := item.items;
    s := Makes(items[p]);
    MakesAreAsked(items[p]);
    MembersApart(item, p, o);
    assert forall c | c in Asked(items[p]) :: c in Asked(item);
    assert AllSpoken(items[p]) && Apart(items[p]) && AllSpoken(items[o]);
    assert s * Asked(items[p]) == s;
    MakesHolds(items[p], s, true);
    NothingHolds(items[o], s, false);
    Signs(items, Picks(s), true, p);
    Signs(items, Picks(s), false, o);
    ValuesAt(items, Picks(s), true);
    ValuesAt(items, Picks(s), false);
    assert SomeTrue(Values(items, Picks(s), true));
    assert !AllTrue(Values(items, Picks(s), false));
  }

  /** A plain member that tells makes an OR, or a negated group, tell. */
  lemma {:induction false} MemberTellsAlone(item: Item, m: nat, own: set<Condition>)
    requires item.Group? && AllSpoken(item) && Apart(item) && m < |item.items| && Tells(item.items[m], own)
    requires !IsNot(item.items[m]) && (Negated(item) || LogicOr(item.internalLogic) == "OR")
    requires Negated(item) && LogicOr(item.internalLogic) == "AND" ==> OnePlain(item.items)
    ensures Tells(item, own)
  {
    var items := item.items;
    assert forall c | c in Asked(items[m]) :: c in Asked(item);
    forall saved: bool
      ensures Value(item, Picks(own), saved).value == Value(items[m], Picks(own), saved).value
    {
      var ss := Values(items, Picks(own), saved);
      ValuesAt(items, Picks(own), saved);
      forall i | 0 <= i < |items|
        ensures ss[i].negated == IsNot(items[i])
        ensures i != m ==> !ss[i].value
      {
        assert AllSpoken(items[i]);
        Signs(items, Picks(own), saved, i);
        if i != m {
          MembersApart(item, i, m);
          NothingHolds(items[i], own, saved);
        }
      }
      DecidesUnion(ss, m);
    }
  }

  /** Any member that tells makes a live plain group tell, with the live plain ones beside it. */
  lemma {:induction false} MemberTellsBeside(item: Item, m: nat, own: set<Condition>)
    requires item.Group? && !Negated(item) && Live(item) && AllSpoken(item) && Apart(item)
    requires m < |item.items| && Tells(item.items[m], own)
    requires IsNot(item.items[m]) || LogicOr(item.internalLogic) == "AND"
    ensures Tells(item, MakesBut(item, m) + own)
  {
    var items, s := item.items, MakesBut(item, m) + own;
    MakesButAreAsked(item, m);
    assert forall c | c in Asked(items[m]) :: c in Asked(item);
    SplitAt(item, m, own, m);
    assert own * Asked(items[m]) == own;
    forall saved: bool
      ensures Value(items[m], Picks(s), saved) == Value(items[m], Picks(own), saved)
      ensures Value(item, Picks(s), saved).value == (Value(items[m], Picks(s), saved).value != IsNot(items[m]))
    {
      LocalPicks(items[m], s, own, saved);
      MemberDecides(item, m, own, saved);
    }
  }

  lemma {:induction false} MembersBeside(item: Item, m: nat, own: set<Condition>, saved: bool)
    requires item.Group? && AllSpoken(item) && Apart(item) && m < |item.items| && own <= Asked(item.items[m])
    ensures var ss := Values(item.items, Picks(MakesBut(item, m) + own), saved);
            && |ss| == |item.items| && ss[m].negated == IsNot(item.items[m])
            && forall i | 0 <= i < |ss| && i != m ::
                 ss[i] == Signed(IsNot(item.items[i]), !IsNot(item.items[i]) && Live(item.items[i]))
  {
    var items, s := item.items, MakesBut(item, m) + own;
    ValuesAt(items, Picks(s), saved);
    assert AllSpoken(items[m]);
    Signs(items, Picks(s), saved, m);
    forall i | 0 <= i < |items| && i != m
      ensures Value(items[i], Picks(s), saved) == Signed(IsNot(items[i]), !IsNot(items[i]) && Live(items[i]))
    {
      SplitAt(item, m, own, i);
      MemberOf(item, s, m, i, saved);
    }
  }

  lemma {:induction false} MemberDecides(item: Item, m: nat, own: set<Condition>, saved: bool)
    requires item.Group? && !Negated(item) && Live(item) && AllSpoken(item) && Apart(item)
    requires m < |item.items| && own <= Asked(item.items[m])
    requires IsNot(item.items[m]) || LogicOr(item.internalLogic) == "AND"
    ensures var s := MakesBut(item, m) + own;
            Value(item, Picks(s), saved).value == (Value(item.items[m], Picks(s), saved).value != IsNot(item.items[m]))
  {
    var s := MakesBut(item, m) + own;
    ValuesAt(item.items, Picks(s), saved);
    MembersBeside(item, m, own, saved);
    var p :| 0 <= p < |item.items| && !IsNot(item.items[p]) && Live(item.items[p]);
    DecidesRest(Values(item.items, Picks(s), saved), m, p);
  }

  /** Every item that is not alike can be told. */
  lemma {:induction false} UnlikeTells(item: Item) returns (s: set<Condition>)
    requires AllSpoken(item) && Apart(item) && !Alike(item)
    ensures Tells(item, s)
    decreases item, 1
  {
    var items := item.items;
    if !Negated(item) {
      var m :| 0 <= m < |items| && !Alike(items[m]);
      s := UnlikeMemberTells(item, m);
    } else if n :| 0 <= n < |items| && IsNot(items[n]) && Live(items[n]) {
      s := NotInNotTells(item, n);
    } else if LogicOr(item.internalLogic) == "AND" && !OnePlain(items) {
      var p :| 0 <= p < |items| && !IsNot(items[p]) && Live(items[p]);
      var i, j :| 0 <= i < |items| && 0 <= j < |items| && !IsNot(items[i]) && !IsNot(items[j]) && i != j;
      s := NotOverAndTells(item, p, if i == p then j else i);
    } else {
      var m :| 0 <= m < |items| && !IsNot(items[m]) && !Alike(items[m]);
      s := UnlikeMemberTells(item, m);
    }
  }

  /** A member that is not alike makes its group tell, unless the group overlooks it. */
  lemma {:induction false} UnlikeMemberTells(item: Item, m: nat) returns (s: set<Condition>)
    requires item.Group? && AllSpoken(item) && Apart(item) && m < |item.items| && !Alike(item.items[m])
    requires if Negated(item) then !IsNot(item.items[m]) else Live(item)
    requires Negated(item) && LogicOr(item.internalLogic) == "AND" ==> OnePlain(item.items)
    ensures Tells(item, s)
    decreases item, 0
  {
    assert AllSpoken(item.items[m]) && Apart(item.items[m]);
    var own := UnlikeTells(item.items[m]);
    if !IsNot(item.items[m]) && (Negated(item) || LogicOr(item.internalLogic) == "OR") {
      s := own;
      MemberTellsAlone(item, m, own);
    } else {
      s := MakesBut(item, m) + own;
      MemberTellsBeside(item, m, own);
    }
  }

  // ----- Roots with an empty group -----

  /** When the root drops empty groups, an AND selects by the others. */
  lemma {:induction false} RootAllTrue(items: seq<Item>, truth: Truth)
    requires forall i | 0 <= i < |items| :: Spoken(items[i])
    ensures var rs := RootValues(items, truth);
            && (forall i | 0 <= i < |rs| :: !rs[i].negated)
            && (rs != [] <==> exists i | 0 <= i < |items| :: Filled(items[i]))
            && (AllTrue(rs) <==> forall i | 0 <= i < |items| && Filled(items[i]) :: Value(items[i], truth, true).value)
  {
    if items != [] {
      var item, rest := items[0], items[1..];
      RootAllTrue(rest, truth);
      assert Spoken(item);
      RootValueIs(item, truth);
      SignedFirst(Value(item, truth, true), RootValues(rest, truth));
      assert RootValues(items, truth)
             == if Filled(item) then [Value(item, truth, true)] + RootValues(rest, truth) else RootValues(rest, truth);
      assert forall i | 0 <= i < |rest| :: items[i + 1] == rest[i];
      assert forall i | 0 < i < |items| :: items[i] == rest[i - 1];
    }
  }

  lemma {:induction false} PlainHasFilled(items: seq<Item>, e: nat)
    requires e < |items| && EmptyGroup(items[e])
    ensures |Plain(items)| == 1 ==> Plain(items)[0] == items[e] && forall i | 0 <= i < |items| :: !Filled(items[i])
    ensures Plain(items) != []
  {
    if e == 0 {
      NoPlain(items[1..]);
      assert forall i | 0 < i < |items| :: items[i] == items[1..][i - 1];
    } else {
      PlainHasFilled(items[1..], e - 1);
      assert forall i | 0 < i < |items| :: items[i] == items[1..][i - 1];
    }
  }

  lemma {:induction false} NoPlain(items: seq<Item>)
    ensures Plain(items) == [] ==> forall i | 0 <= i < |items| :: IsNot(items[i])
  {
    if items != [] {
      NoPlain(items[1..]);
    }
  }

  lemma {:induction false} EmptyGroupInFilter(t: SavedTree, e: nat, truth: Truth)
    requires LogicOr(t.internalLogic) == "AND" && e < |t.items| && EmptyGroup(t.items[e]) && Spoken(t.items[e])
    ensures !FixedHolds(ConvertedTree(t), truth)
  {
    FixedTreeHolds(t, truth);
    ValuesAt(t.items, truth, false);
    var ss := Values(t.items, truth, false);
    TrueHasAPlainOne(LogicOr(t.items[e].internalLogic), []);
    assert Values(t.items[e].items, truth, false) == [];
    assert ss[e] == Signed(false, false);
    assert !AllTrue(ss);
  }

  /** How such a tree reads: as a saved inventory by its other members, as a filter not at all. */
  lemma {:induction false} EmptyGroupAtRoot(t: SavedTree, e: nat, truth: Truth)
    requires LogicOr(t.internalLogic) == "AND" && e < |t.items| && EmptyGroup(t.items[e])
    requires forall i | 0 <= i < |t.items| :: Spoken(t.items[i])
    ensures !FixedHolds(ConvertedTree(t), truth)
    ensures SavedHolds(t, truth)
            <==> && !AnyNot(t.items, truth) && (exists i | 0 <= i < |t.items| :: Filled(t.items[i]))
                 && (forall i | 0 <= i < |t.items| && Filled(t.items[i]) :: Value(t.items[i], truth, true).value)
  {
    EmptyGroupInFilter(t, e, truth);
    RootValueIs(t.items[e], truth);
    RootAllTrue(t.items, truth);
    PlainHasFilled(t.items, e);
    UnsignedSubtract(RootValues(t.items, truth));
  }

  // ----- Whole trees -----

  /** A query answers by what a condition asks for, not by its id. */
  ghost predicate IgnoresIds(q: Query) {
    forall c :: q(c) == q(Contents(c))
  }

  /** Some assignment under which the two ways of running the tree read differently. */
  ghost predicate TreeTells(t: SavedTree, s: set<Condition>) {
    t.items != [] && ConvertedTree(t).items != [] && SavedHolds(t, Picks(s)) != FixedHolds(ConvertedTree(t), Picks(s))
  }

  /** One device that meets exactly the conditions of `s`. */
  lemma {:induction false} OneDeviceTells(t: SavedTree, s: set<Condition>, all: Devices) returns (q: Query)
    requires TreeTells(t, s)
    ensures IgnoresIds(q) && !SelectAlike(t, q, all)
  {
    q := c => if Contents(c) in s then {0} else {};
    FixedFilterSelects(ConvertedTree(t), q, all, 0);
    SavedTreeSelects(t, q, all, 0);
    SameReading(t, At(q, 0), Picks(s));
  }

  /** The readings depend on the answers only. */
  lemma {:induction false} SameReading(t: SavedTree, a: Truth, b: Truth)
    requires forall c :: a(c) == b(c)
    ensures SavedHolds(t, a) == SavedHolds(t, b) && FixedHolds(ConvertedTree(t), a) == FixedHolds(ConvertedTree(t), b)
  {
    Local(RootItem(t), a, b, false);
    FixedTreeHolds(t, a);
    FixedTreeHolds(t, b);
    forall i | 0 <= i < |t.items|
      ensures Value(t.items[i], a, true) == Value(t.items[i], b, true)
    {
      Local(t.items[i], a, b, true);
    }
    SameRootValues(t.items, a, b);
  }

  lemma {:induction false} SameRootValues(items: seq<Item>, a: Truth, b: Truth)
    requires forall c :: a(c) == b(c)
    ensures RootValues(items, a) == RootValues(items, b)
    ensures forall i | 0 <= i < |Plain(items)| :: Value(Plain(items)[i], a, true) == Value(Plain(items)[i], b, true)
  {
    if items != [] {
      Local(items[0], a, b, true);
      SameRootValues(items[1..], a, b);
    }
  }

  /** A tree that is alike selects alike. */
  lemma {:induction false} AlikeSelectsAlike(t: SavedTree, q: Query, all: Devices)
    requires AllSpoken(RootItem(t)) && TreeAlike(t)
    ensures SelectAlike(t, q, all)
  {
    var f := ConvertedTree(t);
    forall x
      ensures x in FixedSelection(t, q, all) <==> x in SavedSelection(t, q, all)
    {
      FixedFilterSelects(f, q, all, x);
      SavedTreeSelects(t, q, all, x);
      if t.items != [] {
        AlikeHoldsAlike(t, At(q, x));
      }
    }
  }

  lemma {:induction false} MembersSpoken(t: SavedTree)
    requires AllSpoken(RootItem(t))
    ensures Spoken(RootItem(t)) && forall i | 0 <= i < |t.items| :: Spoken(t.items[i]) && AllSpoken(t.items[i])
  {
    var items := RootItem(t).items;
    assert forall i | 0 <= i < |items| :: AllSpoken(items[i]);
  }

  lemma {:induction false} AlikeHoldsAlike(t: SavedTree, truth: Truth)
    requires AllSpoken(RootItem(t)) && TreeAlike(t) && t.items != []
    ensures SavedHolds(t, truth) == FixedHolds(ConvertedTree(t), truth)
  {
    MembersSpoken(t);
    if Unwraps(t) {
      LoneNotHoldsNothing(t, truth);
    } else if LogicOr(t.internalLogic) == "AND" && exists i | 0 <= i < |t.items| :: EmptyGroup(t.items[i]) {
      var e :| 0 <= e < |t.items| && EmptyGroup(t.items[e]);
      EmptyGroupAtRoot(t, e, truth);
      if i :| 0 <= i < |t.items| && Filled(t.items[i]) && !Live(t.items[i]) {
        HoldsOnlyIfLive(t.items[i], truth, true);
      }
    } else {
      SavedTreeHolds(t, truth);
      FixedTreeHolds(t, truth);
      AlikeReadsAlike(RootItem(t), truth);
    }
  }

  lemma {:induction false} LoneNotHoldsNothing(t: SavedTree, truth: Truth)
    requires Unwraps(t)
    ensures !SavedHolds(t, truth) && !FixedHolds(ConvertedTree(t), truth)
  {
    FixedTreeHolds(t, truth);
    assert t.items[1..] == [] && Plain(t.items) == [];
  }

  /** One that is not alike, a lone empty NOT group aside, can be told. */
  lemma {:induction false} UnlikeTreeTells(t: SavedTree) returns (s: set<Condition>)
    requires AllSpoken(RootItem(t)) && Apart(RootItem(t)) && !TreeAlike(t) && !Unwraps(t)
    ensures TreeTells(t, s)
  {
    MembersSpoken(t);
    if LogicOr(t.internalLogic) == "AND" && exists i | 0 <= i < |t.items| :: EmptyGroup(t.items[i]) {
      var e :| 0 <= e < |t.items| && EmptyGroup(t.items[e]);
      s := MakesBut(RootItem(t), |t.items|);
      EmptyGroupAtRoot(t, e, Picks(s));
      forall i | 0 <= i < |t.items|
        ensures Value(t.items[i], Picks(s), true)
                == Signed(IsNot(t.items[i]), !IsNot(t.items[i]) && Live(t.items[i]))
      {
        MemberOf(RootItem(t), s, |t.items|, i, true);
      }
    } else {
      s := UnlikeTells(RootItem(t));
      SavedTreeHolds(t, Picks(s));
      FixedTreeHolds(t, Picks(s));
    }
  }

  /** Main result: when groups are combined by AND and OR and no condition occurs twice, the
      saved inventory and the converted filter select the same devices for all answers of the
      conditions if and only if the tree is alike. */
  lemma {:induction false} SelectAlikeIff(t: SavedTree)
    requires AllSpoken(RootItem(t)) && Apart(RootItem(t))
    ensures (forall q, all | IgnoresIds(q) :: SelectAlike(t, q, all)) <==> TreeAlike(t)
  {
    if TreeAlike(t) {
      forall q, all | IgnoresIds(q)
        ensures SelectAlike(t, q, all)
      {
        AlikeSelectsAlike(t, q, all);
      }
    } else if Unwraps(t) {
      EmptyNotTells(t);
    } else {
      var s := UnlikeTreeTells(t);
      var q := OneDeviceTells(t, s, {});
    }
  }

  lemma {:induction false} EmptyNotTells(t: SavedTree)
    requires Unwraps(t) && t.items[0].items == []
    ensures exists q, all :: IgnoresIds(q) && !SelectAlike(t, q, all)
  {
    var q: Query := c => {};
    FixedFilterSelects(ConvertedTree(t), q, {0}, 0);
    SavedTreeSelects(t, q, {0}, 0);
    LoneNotHoldsNothing(t, At(q, 0));
    assert IgnoresIds(q) && !SelectAlike(t, q, {0});
  }

  // ----- Trees without groups that select nothing -----

  /** Every group combines by AND or OR and has a plain member. */
  predicate Grounded(item: Item) {
    item.Group? ==>
      && Spoken(item)
      && (exists i | 0 <= i < |item.items| :: !IsNot(item.items[i]))
      && (forall i | 0 <= i < |item.items| :: Grounded(item.items[i]))
  }

  lemma {:induction false} CleanAllIs(items: seq<Item>)
    ensures CleanAll(items) <==> forall i | 0 <= i < |items| :: Clean(items[i])
  {
    if items != [] {
      CleanAllIs(items[1..]);
      assert forall i | 0 < i < |items| :: items[i] == items[1..][i - 1];
    }
  }

  /** Such an item is live, and alike exactly when it is clean. */
  lemma {:induction false} GroundedAlikeIffClean(item: Item)
    requires Grounded(item)
    ensures AllSpoken(item) && Live(item) && (Alike(item) <==> Clean(item))
  {
    if item.Group? {
      var items := item.items;
      forall i | 0 <= i < |items|
        ensures AllSpoken(items[i]) && Live(items[i]) && (Alike(items[i]) <==> Clean(items[i]))
      {
        GroundedAlikeIffClean(items[i]);
      }
      CleanAllIs(items);
      var p :| 0 <= p < |items| && !IsNot(items[p]);
      assert SomeLive(item);
      if Negated(item) && NoneNegated(items) && |items| > 1 {
        assert !IsNot(items[0]) && !IsNot(items[1]);
      }
    }
  }

  lemma {:induction false} GroundedTree(t: SavedTree)
    requires Grounded(RootItem(t))
    ensures CleanTree(t) <==> Clean(RootItem(t))
    ensures t.items != [] && !Unwraps(t) && forall i | 0 <= i < |t.items| :: !EmptyGroup(t.items[i])
  {
    var p :| 0 <= p < |t.items| && !IsNot(t.items[p]);
    forall i | 0 <= i < |t.items|
      ensures !EmptyGroup(t.items[i])
    {
      assert Grounded(t.items[i]);
    }
  }

  /** When every group, the root included, has a plain member and no condition occurs twice, the
      trees that select alike for all answers of the conditions are exactly the clean ones. */
  lemma {:induction false} SelectAlikeIffClean(t: SavedTree)
    requires Grounded(RootItem(t)) && Apart(RootItem(t))
    ensures (forall q, all | IgnoresIds(q) :: SelectAlike(t, q, all)) <==> CleanTree(t)
  {
    GroundedAlikeIffClean(RootItem(t));
    GroundedTree(t);
    SelectAlikeIff(t);
  }

  // ----- A tree for every clause of cleanliness -----

  function GroupOf(logic: string, internal: string, items: seq<Item>): Item {
    Group(None, Some(logic), Some(internal), items)
  }

  lemma {:induction false} TwoItems(a: Item, b: Item, truth: Truth, saved: bool)
    ensures Values([a], truth, saved) == [Value(a, truth, saved)]
    ensures Values([a, b], truth, saved) == [Value(a, truth, saved), Value(b, truth, saved)]
    ensures RootValues([a, b], truth) == RootValue(a, truth) + RootValue(b, truth)
    ensures Plain([a]) == (if IsNot(a) then [] else [a])
    ensures Plain([a, b]) == (if IsNot(a) then [] else [a]) + (if IsNot(b) then [] else [b])
  {
    assert [a][1..] == [] && [a, b][1..] == [b] && [b][1..] == [];
    assert RootValues([b], truth) == RootValue(b, truth) + [];
  }

  /** A condition beside a negated group, joined by AND. */
  lemma {:induction false} ConditionBesideNot(a: Condition, g: Item, q: Query, all: Devices, x: Device)
    requires IsNot(g) && Spoken(g)
    ensures var t := SavedTree(Some("AND"), [Single(a), g]);
            && (x in SavedSelection(t, q, all) <==> x in q(a) && !Value(g, At(q, x), true).value)
            && (x in FixedSelection(t, q, all) <==> x in q(a) && !Value(g, At(q, x), false).value)
  {
    var t := SavedTree(Some("AND"), [Single(a), g]);
    FixedFilterSelects(ConvertedTree(t), q, all, x);
    SavedTreeSelects(t, q, all, x);
    FixedTreeHolds(t, At(q, x));
    SavedTreeHolds(t, At(q, x));
    forall saved: bool
      ensures Value(RootItem(t), At(q, x), saved).value <==> x in q(a) && !Value(g, At(q, x), saved).value
    {
      TwoItems(Single(a), g, At(q, x), saved);
      var ss := [Signed(false, x in q(a)), Value(g, At(q, x), saved)];
      assert Values(t.items, At(q, x), saved) == ss;
      DecidesTwo(ss);
    }
  }

  lemma {:induction false} DecidesTwo(ss: seq<Signed>)
    requires |ss| == 2 && !ss[0].negated
    ensures Subtract("AND", ss) <==> ss[0].value && (ss[1].value != ss[1].negated)
    ensures Subtract("OR", ss) <==> if ss[1].negated then ss[0].value && !ss[1].value else ss[0].value || ss[1].value
    ensures SomeTrue(ss) <==> ss[0].value || (!ss[1].negated && ss[1].value)
  {
    assert AnyPlain(ss);
    assert Excluded(ss) <==> ss[1].negated && ss[1].value;
    if ss[0].value {
      assert SomeTrue(ss);
    }
  }

  /** NOT over an AND of two conditions: the saved inventory excludes what matches either, the
      converted filter what matches both. */
  lemma {:induction false} NotOverAnd(a: Condition, b: Condition, c: Condition, q: Query, all: Devices)
    ensures var t := SavedTree(Some("AND"), [Single(a), GroupOf("NOT", "AND", [Single(b), Single(c)])]);
            SavedSelection(t, q, all) == q(a) - (q(b) + q(c)) && FixedSelection(t, q, all) == q(a) - (q(b) * q(c))
  {
    var g := GroupOf("NOT", "AND", [Single(b), Single(c)]);
    var t := SavedTree(Some("AND"), [Single(a), g]);
    forall x
      ensures x in SavedSelection(t, q, all) <==> x in q(a) - (q(b) + q(c))
      ensures x in FixedSelection(t, q, all) <==> x in q(a) - (q(b) * q(c))
    {
      ConditionBesideNot(a, g, q, all, x);
      TwoItems(Single(b), Single(c), At(q, x), true);
      TwoItems(Single(b), Single(c), At(q, x), false);
      DecidesTwo([Signed(false, x in q(b)), Signed(false, x in q(c))]);
    }
  }

  /** NOT around a NOT: the saved inventory overlooks the inner one. */
  lemma {:induction false} NotInNot(a: Condition, b: Condition, c: Condition, q: Query, all: Devices)
    ensures var inner := GroupOf("NOT", "OR", [Single(c)]);
            var t := SavedTree(Some("AND"), [Single(a), GroupOf("NOT", "OR", [Single(b), inner])]);
            SavedSelection(t, q, all) == q(a) - q(b) && FixedSelection(t, q, all) == q(a) - (q(b) - q(c))
  {
    var inner := GroupOf("NOT", "OR", [Single(c)]);
    var g := GroupOf("NOT", "OR", [Single(b), inner]);
    var t := SavedTree(Some("AND"), [Single(a), g]);
    forall x
      ensures x in SavedSelection(t, q, all) <==> x in q(a) - q(b)
      ensures x in FixedSelection(t, q, all) <==> x in q(a) - (q(b) - q(c))
    {
      ConditionBesideNot(a, g, q, all, x);
      forall saved: bool
        ensures Value(inner, At(q, x), saved) == Signed(true, x in q(c))
      {
        TwoItems(Single(c), Single(c), At(q, x), saved);
        DecidesUnion([Signed(false, x in q(c))], 0);
      }
      TwoItems(Single(b), inner, At(q, x), true);
      TwoItems(Single(b), inner, At(q, x), false);
      DecidesTwo([Signed(false, x in q(b)), Signed(true, x in q(c))]);
    }
  }

  /** An empty group beside a condition: the saved inventory drops it, the converted filter
      selects nothing. */
  lemma {:induction false} EmptyGroupSelectsNothing(a: Condition, q: Query, all: Devices)
    ensures var t := SavedTree(Some("AND"), [Single(a), GroupOf("AND", "OR", [])]);
            SavedSelection(t, q, all) == q(a) && FixedSelection(t, q, all) == {}
  {
    var g := GroupOf("AND", "OR", []);
    var t := SavedTree(Some("AND"), [Single(a), g]);
    forall x
      ensures x in SavedSelection(t, q, all) <==> x in q(a)
      ensures x !in FixedSelection(t, q, all)
    {
      FixedFilterSelects(ConvertedTree(t), q, all, x);
      SavedTreeSelects(t, q, all, x);
      FixedTreeHolds(t, At(q, x));
      TwoItems(Single(a), g, At(q, x), true);
      TwoItems(Single(a), g, At(q, x), false);
      DecidesTwo([Signed(false, x in q(a)), Signed(false, false)]);
      assert RootValues(t.items, At(q, x)) == [Signed(false, x in q(a))];
      DecidesUnion([Signed(false, x in q(a))], 0);
      assert !AnyNot(t.items, At(q, x));
    }
  }

  /** A lone empty NOT group: the saved inventory selects nothing, the converted filter, being
      empty, selects every device. */
  lemma {:induction false} EmptyNotGroupSelectsEverything(q: Query, all: Devices)
    ensures var t := SavedTree(Some("AND"), [GroupOf("NOT", "OR", [])]);
            SavedSelection(t, q, all) == {} && FixedSelection(t, q, all) == all
  {
    var g := GroupOf("NOT", "OR", []);
    var t := SavedTree(Some("AND"), [g]);
    forall x
      ensures x !in SavedSelection(t, q, all)
    {
      SavedTreeSelects(t, q, all, x);
      TwoItems(g, g, At(q, x), true);
    }
  }

  /** Any other combinator in a group of one condition: the saved inventory takes the condition
      by itself, the converted filter excludes it (NOT) or selects nothing. */
  lemma {:induction false} OddGroup(a: Condition, b: Condition, logic: string, q: Query, all: Devices)
    requires logic !in {"AND", "OR"}
    ensures var t := SavedTree(Some("AND"), [Single(a), GroupOf("AND", logic, [Single(b)])]);
            && SavedSelection(t, q, all) == q(a) * q(b)
            && FixedSelection(t, q, all) == if logic == "NOT" then q(a) - q(b) else {}
  {
    var t := SavedTree(Some("AND"), [Single(a), GroupOf("AND", logic, [Single(b)])]);
    forall x
      ensures x in SavedSelection(t, q, all) <==> x in q(a) * q(b)
      ensures x in FixedSelection(t, q, all) <==> logic == "NOT" && x in q(a) - q(b)
    {
      OddGroupSaved(a, b, logic, q, all, x);
      OddGroupFixed(a, b, logic, q, all, x);
    }
  }

  lemma {:induction false} OddGroupSaved(a: Condition, b: Condition, logic: string, q: Query, all: Devices, x: Device)
    ensures var t := SavedTree(Some("AND"), [Single(a), GroupOf("AND", logic, [Single(b)])]);
            x in SavedSelection(t, q, all) <==> x in q(a) && x in q(b)
  {
    var g := GroupOf("AND", logic, [Single(b)]);
    var t := SavedTree(Some("AND"), [Single(a), g]);
    SavedTreeSelects(t, q, all, x);
    TwoItems(Single(a), g, At(q, x), true);
    assert RootValues(t.items, At(q, x)) == [Signed(false, x in q(a)), Signed(false, x in q(b))];
    DecidesTwo([Signed(false, x in q(a)), Signed(false, x in q(b))]);
    assert !AnyNot(t.items, At(q, x));
  }

  lemma {:induction false} OddGroupFixed(a: Condition, b: Condition, logic: string, q: Query, all: Devices, x: Device)
    requires logic !in {"AND", "OR"}
    ensures var t := SavedTree(Some("AND"), [Single(a), GroupOf("AND", logic, [Single(b)])]);
            x in FixedSelection(t, q, all) <==> logic == "NOT" && x in q(a) && x !in q(b)
  {
    var g := GroupOf("AND", logic, [Single(b)]);
    var t := SavedTree(Some("AND"), [Single(a), g]);
    FixedFilterSelects(ConvertedTree(t), q, all, x);
    FixedTreeHolds(t, At(q, x));
    TwoItems(Single(b), Single(b), At(q, x), false);
    DecidesUnion([Signed(false, x in q(b))], 0);
    TwoItems(Single(a), g, At(q, x), false);
    DecidesTwo([Signed(false, x in q(a)), Value(g, At(q, x), false)]);
  }

  /** Any other combinator at the root of one condition: the saved inventory selects by the
      condition, the converted filter nothing. */
  lemma {:induction false} OddRoot(a: Condition, logic: string, q: Query, all: Devices)
    requires logic !in {"AND", "OR"}
    ensures var t := SavedTree(Some(logic), [Single(a)]);
            SavedSelection(t, q, all) == q(a) && FixedSelection(t, q, all) == {}
  {
    var t := SavedTree(Some(logic), [Single(a)]);
    forall x
      ensures x in SavedSelection(t, q, all) <==> x in q(a)
      ensures x !in FixedSelection(t, q, all)
    {
      FixedFilterSelects(ConvertedTree(t), q, all, x);
      SavedTreeSelects(t, q, all, x);
      FixedTreeHolds(t, At(q, x));
      TwoItems(Single(a), Single(a), At(q, x), true);
      assert !AnyNot(t.items, At(q, x));
    }
  }
}
