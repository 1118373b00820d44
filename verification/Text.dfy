/** The Python string operations that the modelled code uses, and what they guarantee. */
module Text {

  // ----- Whitespace -----

  /** `str.isspace` of one character. */
  predicate IsSpace(c: char) {
    || '\t' <= c <= '\r'
    || '\U{1C}' <= c <= ' '
    || c == '\U{85}' || c == '\U{A0}' || c == '\U{1680}'
    || '\U{2000}' <= c <= '\U{200A}'
    || c == '\U{2028}' || c == '\U{2029}' || c == '\U{202F}' || c == '\U{205F}' || c == '\U{3000}'
  }

  function LeftStrip(s: string): string {
    if s != "" && IsSpace(s[0]) then LeftStrip(s[1..]) else s
  }

  function RightStrip(s: string): string {
    if s != "" && IsSpace(s[|s| - 1]) then RightStrip(s[..|s| - 1]) else s
  }

  /** `str.strip()`. */
  function Strip(s: string): string {
    RightStrip(LeftStrip(s))
  }

  /** No printable ASCII character is white space; the blank and the usual controls are. */
  lemma SpacesAre(c: char)
    ensures '!' <= c <= '~' ==> !IsSpace(c)
    ensures c in {' ', '\t', '\n', '\r', '\U{0B}', '\U{0C}', '\U{A0}'} ==> IsSpace(c)
  {
  }

  predicate AllSpace(s: string) {
    forall i | 0 <= i < |s| :: IsSpace(s[i])
  }

  lemma {:induction false} LeftStripIs(s: string) returns (i: nat)
    ensures i <= |s| && AllSpace(s[..i]) && LeftStrip(s) == s[i..]
    ensures i < |s| ==> !IsSpace(s[i])
  {
    if s != "" && IsSpace(s[0]) {
      i := LeftStripIs(s[1..]);
      assert s[..i + 1] == [s[0]] + s[1..][..i];
      i := i + 1;
    } else {
      i := 0;
      assert s[0..] == s;
    }
  }

  lemma {:induction false} RightStripIs(s: string) returns (j: nat)
    ensures j <= |s| && AllSpace(s[j..]) && RightStrip(s) == s[..j]
    ensures j > 0 ==> !IsSpace(s[j - 1])
  {
    if s != "" && IsSpace(s[|s| - 1]) {
      j := RightStripIs(s[..|s| - 1]);
      assert s[j..] == s[..|s| - 1][j..] + [s[|s| - 1]];
    } else {
      j := |s|;
      assert s[..|s|] == s;
    }
  }

  /** `strip` takes away exactly the white space at both ends. */
  lemma {:induction false} StripIs(s: string) returns (i: nat, j: nat)
    ensures i <= j <= |s| && Strip(s) == s[i..j] && AllSpace(s[..i]) && AllSpace(s[j..])
    ensures i < j ==> !IsSpace(s[i]) && !IsSpace(s[j - 1])
  {
    i := LeftStripIs(s);
    var k := RightStripIs(s[i..]);
    j := i + k;
    assert s[i..][..k] == s[i..j] && s[i..][k..] == s[j..];
    if k > 0 {
      assert s[i..][k - 1] == s[j - 1];
    }
  }

  // ----- Replacing -----

  /** `str.replace(old, new)`: left to right, without overlap. */
  function Replace(s: string, old_: string, new_: string): string
    requires old_ != ""
    decreases |s|
  {
    if |s| < |old_| then s
    else if old_ <= s then new_ + Replace(s[|old_|..], old_, new_)
    else [s[0]] + Replace(s[1..], old_, new_)
  }

  /** Replacing a single character works on each part of a text separately. */
  lemma {:induction false} ReplaceCharConcat(a: string, b: string, c: char, new_: string)
    ensures Replace(a + b, [c], new_) == Replace(a, [c], new_) + Replace(b, [c], new_)
  {
    if a == "" {
      assert a + b == b;
    } else {
      assert (a + b)[1..] == a[1..] + b;
      ReplaceCharConcat(a[1..], b, c, new_);
    }
  }

  // ----- Splitting and joining -----

  function IndexOf(s: string, d: char): (i: nat)
    ensures i <= |s| && d !in s[..i]
    ensures i < |s| ==> s[i] == d
    ensures d in s <==> i < |s|
  {
    if s == "" then 0
    else if s[0] == d then 0
    else
      var i := IndexOf(s[1..], d);
      assert s[..i + 1] == [s[0]] + s[1..][..i];
      i + 1
  }

  /** `str.split(d, limit)`: at most `limit` cuts, the rest stays in one piece. */
  function SplitAtMost(s: string, d: char, limit: nat): seq<string>
    decreases limit
  {
    if limit == 0 || d !in s then [s]
    else [s[..IndexOf(s, d)]] + SplitAtMost(s[IndexOf(s, d) + 1..], d, limit - 1)
  }

  /** `str.split(d)`. */
  function Split(s: string, d: char): seq<string> {
    SplitAtMost(s, d, |s|)
  }

  /** `d.join(parts)`. */
  function Join(parts: seq<string>, d: char): string {
    if parts == [] then ""
    else if |parts| == 1 then parts[0]
    else parts[0] + [d] + Join(parts[1..], d)
  }

  lemma IndexOfFirst(a: string, d: char, b: string)
    requires d !in a
    ensures IndexOf(a + [d] + b, d) == |a|
  {
    var s := a + [d] + b;
    var i := IndexOf(s, d);
    assert s[|a|] == d;
    assert forall k | 0 <= k < |a| :: s[k] == a[k];
  }

  lemma SplitHead(a: string, d: char, b: string, limit: nat)
    requires d !in a && limit > 0
    ensures SplitAtMost(a + [d] + b, d, limit) == [a] + SplitAtMost(b, d, limit - 1)
  {
    var s := a + [d] + b;
    IndexOfFirst(a, d, b);
    assert s[|a|] == d;
    assert s[..|a|] == a && s[|a| + 1..] == b;
  }

  /** `limit` cuts take the fields apart again: no field but the last holds the separator,
      and the last does not either when there are cuts to spare. */
  predicate Separable(parts: seq<string>, d: char, limit: nat)
    decreases |parts|
  {
    if |parts| <= 1 then |parts| == 1 && (limit == 0 || d !in parts[0])
    else limit > 0 && d !in parts[0] && Separable(parts[1..], d, limit - 1)
  }

  /** A joined list comes apart into the same fields. */
  lemma {:induction false} SplitUndoesJoin(parts: seq<string>, d: char, limit: nat)
    requires Separable(parts, d, limit)
    ensures SplitAtMost(Join(parts, d), d, limit) == parts
    decreases |parts|
  {
    if |parts| == 1 {
      assert parts == [parts[0]];
    } else {
      var head, rest := parts[0], parts[1..];
      assert Join(parts, d) == head + [d] + Join(rest, d) && parts == [head] + rest;
      SplitHead(head, d, Join(rest, d), limit);
      SplitUndoesJoin(rest, d, limit - 1);
    }
  }

  // ----- Decimal numbers -----

  predicate IsDigit(c: char) {
    '0' <= c <= '9'
  }

  /** `str.isdigit`: not empty and digits only. */
  predicate AllDigits(s: string) {
    s != "" && forall i | 0 <= i < |s| :: IsDigit(s[i])
  }

  function Digit(n: nat): (c: char)
    requires n < 10
    ensures IsDigit(c)
  {
    '0' + n as char
  }

  /** `str(n)`. */
  function Decimal(n: nat): (s: string)
    ensures AllDigits(s)
  {
    if n < 10 then [Digit(n)] else Decimal(n / 10) + [Digit(n % 10)]
  }

  lemma DecimalsAre()
    ensures Decimal(0) == "0" && Decimal(10) == "10" && Decimal(123) == "123"
  {
    assert Decimal(12) == Decimal(1) + [Digit(2)];
  }

  /** `int(s)` of a digit string. */
  function ParseDecimal(s: string): nat
    requires AllDigits(s)
  {
    var last := (s[|s| - 1] - '0') as nat;
    if |s| == 1 then last else ParseDecimal(s[..|s| - 1]) * 10 + last
  }

  lemma {:induction false} ParseUndoesDecimal(n: nat)
    ensures ParseDecimal(Decimal(n)) == n
  {
    if n >= 10 {
      ParseUndoesDecimal(n / 10);
      assert Decimal(n)[..|Decimal(n)| - 1] == Decimal(n / 10);
    }
  }
}
