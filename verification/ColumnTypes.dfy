/** Canonical column types and which changes between them are safe
    (backend/migrations/auto_schema.py). */
module ColumnTypes {
  import opened Common
  import opened Text

  /** The canonical types; `Other` covers those no rule mentions (BOOLEAN, JSONB, ...). */
  datatype SqlType =
    | VarcharN(length: nat)
    | Varchar
    | TextType
    | SmallInt
    | Integer
    | BigInt
    | Timestamp
    | TimestampTz
    | Other(name: string)

  // ----- The rule on type names -----

  function Name(t: SqlType): string {
    match t
    case VarcharN(n) => "VARCHAR(" + Decimal(n) + ")"
    case Varchar => "VARCHAR"
    case TextType => "TEXT"
    case SmallInt => "SMALLINT"
    case Integer => "INTEGER"
    case BigInt => "BIGINT"
    case Timestamp => "TIMESTAMP"
    case TimestampTz => "TIMESTAMP WITH TIME ZONE"
    case Other(name) => name
  }

  /** A name outside the list is not mistaken for one of it. */
  predicate Canonical(t: SqlType) {
    t.Other? ==> !("VARCHAR" <= t.name)
                 && t.name !in {"TEXT", "SMALLINT", "INTEGER", "BIGINT", "TIMESTAMP", "TIMESTAMP WITH TIME ZONE"}
  }

  /** The end of the digits that start at `i`. */
  function DigitsEnd(s: string, i: nat): (e: nat)
    requires i <= |s|
    ensures i <= e <= |s|
    ensures forall k | i <= k < e :: IsDigit(s[k])
    ensures e < |s| ==> !IsDigit(s[e])
    decreases |s| - i
  {
    if i < |s| && IsDigit(s[i]) then DigitsEnd(s, i + 1) else i
  }

  /** `re.search(r"\((\d+)\)", s)` from position `i` on, as the number found. */
  function SearchLength(s: string, i: nat): Option<nat>
    requires i <= |s|
    decreases |s| - i
  {
    if i == |s| then None
    else
      var e := DigitsEnd(s, i + 1);
      if s[i] == '(' && i + 1 < e < |s| && s[e] == ')' then
        var digits := s[i + 1..e];
        assert forall k | 0 <= k < |digits| :: IsDigit(digits[k]);
        Some(ParseDecimal(digits))
      else SearchLength(s, i + 1)
  }

  /** `_is_safe_type_change`, on names. */
  predicate IsSafeTypeChange(from: string, to: string) {
    if from == to then true
    else if "VARCHAR" <= from && to == "TEXT" then true
    else if "VARCHAR" <= from && "VARCHAR" <= to && SearchLength(from, 0).Some? && SearchLength(to, 0).Some? then
      SearchLength(to, 0).value > SearchLength(from, 0).value
    else if from == "TIMESTAMP" && to == "TIMESTAMP WITH TIME ZONE" then true
    else if from == "INTEGER" && to == "BIGINT" then true
    else from == "SMALLINT" && (to == "INTEGER" || to == "BIGINT")
  }

  // ----- The rule on types -----

  predicate Safe(from: SqlType, to: SqlType) {
    || from == to
    || ((from.VarcharN? || from.Varchar?) && to.TextType?)
    || (from.VarcharN? && to.VarcharN? && to.length > from.length)
    || (from.Timestamp? && to.TimestampTz?)
    || (from.Integer? && to.BigInt?)
    || (from.SmallInt? && (to.Integer? || to.BigInt?))
  }

  lemma {:induction false} DigitsEndIs(s: string, i: nat, e: nat)
    requires i <= e <= |s| && (forall k | i <= k < e :: IsDigit(s[k])) && (e < |s| ==> !IsDigit(s[e]))
    ensures DigitsEnd(s, i) == e
    decreases e - i
  {
    if i < e {
      DigitsEndIs(s, i + 1, e);
    }
  }

  /** Before an opening parenthesis there is nothing to find. */
  lemma {:induction false} SearchSkips(s: string, i: nat, j: nat)
    requires i <= j <= |s| && forall k | i <= k < j :: s[k] != '('
    ensures SearchLength(s, i) == SearchLength(s, j)
    decreases j - i
  {
    if i < j {
      SearchSkips(s, i + 1, j);
    }
  }

  lemma LengthOfVarchar(n: nat)
    ensures SearchLength("VARCHAR(" + Decimal(n) + ")", 0) == Some(n)
    ensures SearchLength("VARCHAR", 0) == None
  {
    var d := Decimal(n);
    var s := "VARCHAR(" + d + ")";
    assert s[7] == '(' && s[8..8 + |d|] == d && s[8 + |d|] == ')';
    assert forall k | 8 <= k < 8 + |d| :: s[k] == d[k - 8];
    DigitsEndIs(s, 8, 8 + |d|);
    SearchSkips(s, 0, 7);
    ParseUndoesDecimal(n);
    SearchSkips("VARCHAR", 0, 7);
  }

  lemma VarcharNames(t: SqlType)
    requires Canonical(t)
    ensures "VARCHAR" <= Name(t) <==> t.VarcharN? || t.Varchar?
    ensures t.VarcharN? ==> SearchLength(Name(t), 0) == Some(t.length)
    ensures t.Varchar? ==> SearchLength(Name(t), 0) == None
  {
    if t.VarcharN? {
      LengthOfVarchar(t.length);
    } else {
      LengthOfVarchar(0);
    }
  }

  lemma NamesDiffer(a: SqlType, b: SqlType)
    requires Canonical(a) && Canonical(b)
    ensures Name(a) == Name(b) <==> a == b
  {
    VarcharNames(a);
    VarcharNames(b);
  }

  /** Reading the names, as the code does, is the same as reading the types. */
  lemma NamesDecideSafety(a: SqlType, b: SqlType)
    requires Canonical(a) && Canonical(b)
    ensures IsSafeTypeChange(Name(a), Name(b)) <==> Safe(a, b)
  {
    VarcharNames(a);
    VarcharNames(b);
    NamesDiffer(a, b);
    NameFacts(a);
    NameFacts(b);
  }

  lemma NameFacts(t: SqlType)
    requires Canonical(t)
    ensures Name(t) == "TEXT" <==> t.TextType?
    ensures Name(t) == "TIMESTAMP" <==> t.Timestamp?
    ensures Name(t) == "TIMESTAMP WITH TIME ZONE" <==> t.TimestampTz?
    ensures Name(t) == "SMALLINT" <==> t.SmallInt?
    ensures Name(t) == "INTEGER" <==> t.Integer?
    ensures Name(t) == "BIGINT" <==> t.BigInt?
  {
    VarcharNames(t);
  }

  /** Safety is a partial order: chains of safe changes are safe and none can be undone by
      another. */
  lemma SafeIsPartialOrder(a: SqlType, b: SqlType, c: SqlType)
    ensures Safe(a, a)
    ensures Safe(a, b) && Safe(b, a) ==> a == b
    ensures Safe(a, b) && Safe(b, c) ==> Safe(a, c)
  {
  }

  /** Where sizes do not decide: VARCHAR goes to TEXT only, nothing but itself goes to VARCHAR,
      and a timestamp may only gain its zone. */
  lemma SafeUnsized(t: SqlType)
    ensures Safe(Varchar, t) <==> t == Varchar || t == TextType
    ensures Safe(t, Varchar) <==> t == Varchar
    ensures Safe(Timestamp, t) <==> t == Timestamp || t == TimestampTz
  {
  }

  /** On the names themselves. */
  lemma NamedChanges()
    ensures IsSafeTypeChange("VARCHAR", "TEXT") && !IsSafeTypeChange("TEXT", "VARCHAR")
    ensures IsSafeTypeChange("SMALLINT", "BIGINT") && IsSafeTypeChange("SMALLINT", "INTEGER")
    ensures IsSafeTypeChange("INTEGER", "BIGINT") && !IsSafeTypeChange("BIGINT", "INTEGER")
    ensures IsSafeTypeChange("TIMESTAMP", "TIMESTAMP WITH TIME ZONE")
    ensures !IsSafeTypeChange("TIMESTAMP WITH TIME ZONE", "TIMESTAMP")
  {
    assert SearchLength("VARCHAR", 0) == None by {
      SearchSkips("VARCHAR", 0, 7);
    }
  }

  // ----- Values -----

  datatype Value =
    | Chars(s: string)
    | Number(n: int)
    | LocalTime(local: int)
    | Instant(utc: int)
    | Opaque(typeName: string, bits: int)

  predicate Inhabits(v: Value, t: SqlType) {
    match t
    case VarcharN(n) => v.Chars? && |v.s| <= n
    case Varchar => v.Chars?
    case TextType => v.Chars?
    case SmallInt => v.Number? && -0x8000 <= v.n < 0x8000
    case Integer => v.Number? && -0x8000_0000 <= v.n < 0x8000_0000
    case BigInt => v.Number? && -0x8000_0000_0000_0000 <= v.n < 0x8000_0000_0000_0000
    case Timestamp => v.LocalTime?
    case TimestampTz => v.Instant?
    case Other(name) => v.Opaque? && v.typeName == name
  }

  /** The session's time zone: which instant a local time is taken for. */
  type Zone = int -> int

  /** `USING col::type` for the safe changes: a local time becomes an instant, everything
      else is stored as it is. */
  function Cast(v: Value, to: SqlType, zone: Zone): Value {
    if v.LocalTime? && to.TimestampTz? then Instant(zone(v.local)) else v
  }

  /** Every value of the old type is a value of the new one after a safe change. */
  lemma SafeCastFits(v: Value, from: SqlType, to: SqlType, zone: Zone)
    requires Safe(from, to) && Inhabits(v, from)
    ensures Inhabits(Cast(v, to, zone), to)
  {
  }

  ghost predicate Injective(zone: Zone) {
    forall s, t :: zone(s) == zone(t) ==> s == t
  }

  /** No two values fall together. */
  ghost predicate Lossless(from: SqlType, to: SqlType, zone: Zone) {
    forall v, w | Inhabits(v, from) && Inhabits(w, from) && Cast(v, to, zone) == Cast(w, to, zone) :: v == w
  }

  /** A safe change loses nothing, except that TIMESTAMP to TIMESTAMP WITH TIME ZONE does
      exactly when the session's zone takes two local times for one instant. */
  lemma SafeIsLosslessIff(from: SqlType, to: SqlType, zone: Zone)
    requires Safe(from, to)
    ensures Lossless(from, to, zone) <==> (from.Timestamp? && to.TimestampTz? ==> Injective(zone))
  {
    if from.Timestamp? && to.TimestampTz? && !Injective(zone) {
      var s, t :| zone(s) == zone(t) && s != t;
      assert Cast(LocalTime(s), to, zone) == Cast(LocalTime(t), to, zone);
    }
    if from.Timestamp? && to.TimestampTz? && Injective(zone) {
      forall v, w | Inhabits(v, from) && Inhabits(w, from) && Cast(v, to, zone) == Cast(w, to, zone)
        ensures v == w
      {
        assert zone(v.local) == zone(w.local);
      }
    }
  }

  /** A clock that is put forward from 2 to 3 o'clock (times in minutes): 2:30 and 3:30 become the same instant. */
  lemma SpringForwardLosesTime()
    ensures !Lossless(Timestamp, TimestampTz, t => if t >= 180 then t - 60 else t)
  {
    var zone := t => if t >= 180 then t - 60 else t;
    assert Cast(LocalTime(150), TimestampTz, zone) == Cast(LocalTime(210), TimestampTz, zone);
    assert Inhabits(LocalTime(150), Timestamp) && Inhabits(LocalTime(210), Timestamp);
  }

  /** A text of a given length. */
  function Filler(n: nat): (s: string)
    ensures |s| == n
  {
    seq(n, _ => 'x')
  }

  /** On sized types the rule is exact: a change is safe exactly when every value of the old
      type is a value of the new one. */
  lemma SafeIffEveryValueFits(from: SqlType, to: SqlType)
    requires !from.Varchar? && !to.Varchar? && !(from.Timestamp? && to.TimestampTz?)
    ensures Safe(from, to) <==> forall v | Inhabits(v, from) :: Inhabits(v, to)
  {
    if !Safe(from, to) {
      var v := match from
        case VarcharN(n) => Chars(Filler(n))
        case TextType => Chars(Filler(if to.VarcharN? then to.length + 1 else 0))
        case SmallInt => Number(0)
        case Integer => Number(0x7FFF_FFFF)
        case BigInt => Number(0x7FFF_FFFF_FFFF_FFFF)
        case Timestamp => LocalTime(0)
        case TimestampTz => Instant(0)
        case Other(name) => Opaque(name, 0)
        case Varchar => Chars("");
      assert Inhabits(v, from) && !Inhabits(v, to);
    }
  }
}
