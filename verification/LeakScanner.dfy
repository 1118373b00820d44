/** The scanner that finds `HTTPException(...)` calls in source text
    (backend/scripts/check_http_500_leaks.py), against a character-by-character lexer. */
module LeakScanner {
  import opened Common
  import opened Text

  // ----- The reference lexer -----

  /** What the character at a position is part of. */
  datatype Mode = Code | Quoted(quote: char) | Escaped(quote: char) | Comment

  function NextMode(m: Mode, c: char): Mode {
    match m
    case Code => if c == '\'' || c == '"' then Quoted(c) else if c == '#' then Comment else Code
    case Quoted(q) => if c == '\\' then Escaped(q) else if c == q then Code else m
    case Escaped(q) => Quoted(q)
    case Comment => if c == '\n' then Code else m
  }

  /** The mode in which the character at `k` is read when reading starts at `from`. */
  function ModeAt(s: string, from: nat, k: nat): Mode
    requires from <= k <= |s|
    decreases k
  {
    if k == from then Code else NextMode(ModeAt(s, from, k - 1), s[k - 1])
  }

  /** Parentheses opened minus parentheses closed, in code only. */
  function DepthAt(s: string, from: nat, k: nat): int
    requires from <= k <= |s|
    decreases k
  {
    if k == from then 0
    else
      DepthAt(s, from, k - 1)
      + if ModeAt(s, from, k - 1) != Code then 0
        else if s[k - 1] == '(' then 1 else if s[k - 1] == ')' then -1 else 0
  }

  /** The character at `k` is a closing parenthesis that brings the depth to zero. */
  predicate ClosesAt(s: string, from: nat, k: nat)
    requires from <= k < |s|
  {
    ModeAt(s, from, k) == Code && s[k] == ')' && DepthAt(s, from, k + 1) == 0
  }

  ghost predicate NoClose(s: string, from: nat, to: nat) {
    forall k | from <= k < to && k < |s| :: !ClosesAt(s, from, k)
  }

  /** The first such position at or after `k`. */
  function FirstClose(s: string, from: nat, k: nat): (r: Option<nat>)
    requires from <= k
    ensures r.Some? ==> k <= r.value < |s| && ClosesAt(s, from, r.value)
    ensures forall j | k <= j < (if r.Some? then r.value else |s|) :: !ClosesAt(s, from, j)
    decreases |s| - k
  {
    if k >= |s| then None
    else if ClosesAt(s, from, k) then Some(k)
    else FirstClose(s, from, k + 1)
  }

  lemma FirstCloseIs(s: string, from: nat, k: nat)
    requires from <= k < |s| && ClosesAt(s, from, k) && NoClose(s, from, k)
    ensures FirstClose(s, from, from) == Some(k)
  {
  }

  /** Started at an opening parenthesis, the first closing position is the first one after
      which the depth is zero: the span is the shortest balanced one. */
  lemma {:induction false} DepthStaysPositive(s: string, from: nat, k: nat)
    requires from < k <= |s| && s[from] == '(' && NoClose(s, from, k)
    ensures DepthAt(s, from, k) > 0
    decreases k
  {
    if k == from + 1 {
      assert DepthAt(s, from, from) == 0 && ModeAt(s, from, from) == Code;
    } else {
      DepthStaysPositive(s, from, k - 1);
      assert !ClosesAt(s, from, k - 1);
    }
  }

  lemma ShortestBalancedSpan(s: string, from: nat, k: nat)
    requires from < |s| && s[from] == '('
    requires FirstClose(s, from, from) == Some(k)
    ensures from < k && DepthAt(s, from, k + 1) == 0
    ensures forall j | from < j <= k :: DepthAt(s, from, j) > 0
  {
    forall j | from < j <= k
      ensures DepthAt(s, from, j) > 0
    {
      DepthStaysPositive(s, from, j);
    }
    assert ModeAt(s, from, from) == Code;
  }

  /** How many backslashes in a row end just before `k`, from `from` on. */
  function Backslashes(s: string, from: nat, k: nat): nat
    requires from <= k <= |s|
    decreases k
  {
    if k > from && s[k - 1] == '\\' then Backslashes(s, from, k - 1) + 1 else 0
  }

  /** A quote like the opening one at `a` that an even number of backslashes precedes. */
  predicate EndsString(s: string, a: nat, k: nat)
    requires a < k < |s|
  {
    s[k] == s[a] && Backslashes(s, a + 1, k) % 2 == 0
  }

  /** From an opening quote at `a` on, a character is part of the string until a quote of the
      same kind is preceded by an even number of backslashes; then code goes on. */
  lemma {:induction false} StringsAre(s: string, from: nat, a: nat, k: nat)
    requires from <= a < k <= |s| && ModeAt(s, from, a) == Code && (s[a] == '\'' || s[a] == '"')
    requires forall j | a < j < k :: !EndsString(s, a, j)
    ensures ModeAt(s, from, k) == if Backslashes(s, a + 1, k) % 2 == 0 then Quoted(s[a]) else Escaped(s[a])
    ensures k < |s| && EndsString(s, a, k) ==> ModeAt(s, from, k + 1) == Code
    ensures DepthAt(s, from, k) == DepthAt(s, from, a)
    decreases k
  {
    if k > a + 1 {
      StringsAre(s, from, a, k - 1);
      assert !EndsString(s, a, k - 1);
    }
  }

  /** A comment goes up to its line end. */
  lemma {:induction false} CommentsAre(s: string, from: nat, a: nat, k: nat)
    requires from <= a < k <= |s| && ModeAt(s, from, a) == Code && s[a] == '#'
    requires forall j | a < j < k :: s[j] != '\n'
    ensures ModeAt(s, from, k) == Comment && DepthAt(s, from, k) == DepthAt(s, from, a)
    ensures k < |s| && s[k] == '\n' ==> ModeAt(s, from, k + 1) == Code
    decreases k
  {
    if k > a + 1 {
      CommentsAre(s, from, a, k - 1);
    }
  }

  /** Everything else is code, where parentheses count. */
  lemma CodeIs(s: string, from: nat, k: nat)
    requires from <= k < |s| && ModeAt(s, from, k) == Code
    ensures s[k] !in {'\'', '"', '#'} ==> ModeAt(s, from, k + 1) == Code
    ensures DepthAt(s, from, k + 1) - DepthAt(s, from, k) == if s[k] == '(' then 1 else if s[k] == ')' then -1 else 0
  {
  }

  // ----- The scanner -----

  /** Skips a string literal whose opening quote is at `start`; the result may lie one past
      the end of the text when the text ends in a backslash. */
  method SkipString(source: string, from: nat, start: nat) returns (i: nat)
    requires from <= start < |source| && ModeAt(source, from, start) == Code
    requires source[start] == '\'' || source[start] == '"'
    requires NoClose(source, from, start)
    ensures start < i <= |source| + 1
    ensures i < |source| ==> ModeAt(source, from, i) == Code
                             && DepthAt(source, from, i) == DepthAt(source, from, start)
    ensures NoClose(source, from, i)
  {
    var quote := source[start];
    i := start + 1;
    while i < |source|
      invariant start < i <= |source| + 1
      invariant i < |source| ==> ModeAt(source, from, i) == Quoted(quote)
                                 && DepthAt(source, from, i) == DepthAt(source, from, start)
      invariant NoClose(source, from, i)
      decreases |source| + 1 - i
    {
      assert ModeAt(source, from, i + 1) == NextMode(Quoted(quote), source[i]);
      if source[i] == '\\' {
        if i + 1 < |source| {
          assert ModeAt(source, from, i + 2) == Quoted(quote);
        }
        i := i + 2;
        continue;
      }
      if source[i] == quote {
        i := i + 1;
        break;
      }
      i := i + 1;
    }
  }

  /** Skips a comment up to its line end. */
  method SkipComment(source: string, from: nat, start: nat) returns (i: nat)
    requires from <= start < |source| && ModeAt(source, from, start) == Code && source[start] == '#'
    requires NoClose(source, from, start)
    ensures start < i <= |source|
    ensures i < |source| ==> source[i] == '\n' && ModeAt(source, from, i) == Comment
                             && DepthAt(source, from, i) == DepthAt(source, from, start)
    ensures NoClose(source, from, i)
  {
    i := start;
    while i < |source| && source[i] != '\n'
      invariant start <= i <= |source|
      invariant ModeAt(source, from, i) == if i == start then Code else Comment
      invariant DepthAt(source, from, i) == DepthAt(source, from, start)
      invariant NoClose(source, from, i)
    {
      i := i + 1;
    }
  }

  /** `_extract_balanced_paren`: the span up to the first closing position, or nothing when
      there is none. */
  method ExtractBalancedParen(source: string, open: nat) returns (span: Option<string>)
    ensures var k := FirstClose(source, open, open);
            if k.Some? then span == Some(source[open..k.value + 1]) else span == None
  {
    var depth := 0;
    var i := open;
    while i < |source|
      invariant open <= i <= |source| + 1 || i == open
      invariant i < |source| ==> AtCode(source, open, i, depth)
      invariant NoClose(source, open, i)
      decreases |source| + 1 - i
    {
      var c := source[i];
      if c == '\'' || c == '"' {
        i := SkipString(source, open, i);
        continue;
      }
      if c == '#' {
        i := SkipComment(source, open, i);
        continue;
      }
      if c == '(' {
        depth := depth + 1;
      } else if c == ')' {
        depth := depth - 1;
        if depth == 0 {
          assert DepthAt(source, open, i + 1) == 0;
          FirstCloseIs(source, open, i);
          return Some(source[open..i + 1]);
        }
      }
      i := i + 1;
    }
    return None;
  }

  /** The scanner's own state agrees with the lexer; after a comment it reads the line end
      as code, which changes nothing. */
  ghost predicate AtCode(s: string, from: nat, i: nat, depth: int) {
    && from <= i < |s|
    && DepthAt(s, from, i) == depth
    && (ModeAt(s, from, i) == Code || (ModeAt(s, from, i) == Comment && s[i] == '\n'))
  }

  // ----- The block iterator -----

  const TOKEN := "HTTPException"

  predicate TokenAt(text: string, i: nat) {
    i + |TOKEN| <= |text| && text[i..i + |TOKEN|] == TOKEN
  }

  /** `text.find(token, pos)`. */
  function Find(text: string, pos: nat): (r: Option<nat>)
    ensures r.Some? ==> pos <= r.value && TokenAt(text, r.value)
    ensures forall i | pos <= i && (r.Some? ==> i < r.value) :: !TokenAt(text, i)
    decreases |text| - pos
  {
    if pos >= |text| then None
    else if TokenAt(text, pos) then Some(pos)
    else Find(text, pos + 1)
  }

  function SkipSpaces(text: string, j: nat): (r: nat)
    ensures j <= r
    ensures r < |text| ==> !IsSpace(text[r])
    ensures forall i | j <= i < r :: i < |text| && IsSpace(text[i])
    decreases |text| - j
  {
    if j < |text| && IsSpace(text[j]) then SkipSpaces(text, j + 1) else j
  }

  /** A call: where its name starts, its opening parenthesis, and just past its closing one. */
  datatype Span = Span(start: nat, open: nat, end: nat)

  /** Is there a complete call at position `i`? */
  function CallAt(text: string, i: nat): (r: Option<Span>)
    ensures r.Some? ==> r.value.start == i < r.value.open < r.value.end <= |text|
  {
    if !TokenAt(text, i) then None
    else
      var j := SkipSpaces(text, i + |TOKEN|);
      if j >= |text| || text[j] != '(' then None
      else
        var k := FirstClose(text, j, j);
        if k.None? then None else Some(Span(i, j, k.value + 1))
  }

  /** A complete call: the name, white space, an opening parenthesis, and a position that closes
      it. */
  ghost predicate IsCall(text: string, i: nat, open: nat, close: nat) {
    && i + 13 <= open <= close < |text| && text[i..i + 13] == "HTTPException"
    && AllSpace(text[i + 13..open]) && text[open] == '(' && ClosesAt(text, open, close)
  }

  lemma {:induction false} SkipSpacesIs(text: string, from: nat, to: nat)
    requires from <= to < |text| && AllSpace(text[from..to]) && !IsSpace(text[to])
    ensures SkipSpaces(text, from) == to
    decreases |text| - from
  {
    if from < to {
      assert text[from..to][0] == text[from] && text[from + 1..to] == text[from..to][1..];
      SkipSpacesIs(text, from + 1, to);
    }
  }

  /** There is a call at `i` exactly if there is a complete one; it ends at its first close. */
  lemma {:induction false} CallIs(text: string, i: nat)
    ensures CallAt(text, i).Some? <==> exists open: nat, close: nat :: IsCall(text, i, open, close)
    ensures CallAt(text, i).Some? ==>
              exists open: nat, close: nat ::
                && IsCall(text, i, open, close) && CallAt(text, i).value == Span(i, open, close + 1)
                && forall k | open <= k < close :: !ClosesAt(text, open, k)
  {
    assert |TOKEN| == 13;
    if open: nat, close: nat :| IsCall(text, i, open, close) {
      SkipSpacesIs(text, i + 13, open);
    }
    if CallAt(text, i).Some? {
      var call := CallAt(text, i).value;
      assert forall k | i + 13 <= k < call.open :: IsSpace(text[k]);
      assert IsCall(text, i, call.open, call.end - 1);
    }
  }

  function LineOf(text: string, i: nat): nat
    requires i <= |text|
  {
    1 + |NewlinesBefore(text, i)|
  }

  /** The first line is line 1, and every line end starts the next one. */
  lemma LinesAre(text: string, i: nat)
    requires i < |text|
    ensures LineOf(text, 0) == 1
    ensures LineOf(text, i + 1) == LineOf(text, i) + if text[i] == '\n' then 1 else 0
  {
    assert NewlinesBefore(text, 0) == {};
    assert NewlinesBefore(text, i + 1) == NewlinesBefore(text, i) + if text[i] == '\n' then {i} else {};
  }

  /** The line ends before position `i`. */
  function NewlinesBefore(text: string, i: nat): set<nat>
    requires i <= |text|
  {
    set p: nat | p < i && text[p] == '\n'
  }

  /** `text[:i].count("\n")`. */
  method CountNewlines(text: string, i: nat) returns (n: nat)
    requires i <= |text|
    ensures n == |NewlinesBefore(text, i)|
  {
    n := 0;
    var p := 0;
    while p < i
      invariant p <= i && n == |NewlinesBefore(text, p)|
    {
      if text[p] == '\n' {
        assert NewlinesBefore(text, p + 1) == NewlinesBefore(text, p) + {p};
        n := n + 1;
      } else {
        assert NewlinesBefore(text, p + 1) == NewlinesBefore(text, p);
      }
      p := p + 1;
    }
  }

  /** Every complete call of the text, by the position of its name. */
  function Calls(text: string): map<nat, Span> {
    map i: nat | i < |text| && CallAt(text, i).Some? :: CallAt(text, i).value
  }

  /** The reported calls are complete calls, in order and without overlap. */
  ghost predicate Reported(calls: map<nat, Span>, spans: seq<Span>) {
    && (forall h | 0 <= h < |spans| :: spans[h].start in calls && calls[spans[h].start] == spans[h])
    && (forall g, h | 0 <= g < h < |spans| :: spans[g].end <= spans[h].start)
  }

  /** Position `i` lies inside a reported call. */
  ghost predicate Inside(spans: seq<Span>, i: nat) {
    exists h | 0 <= h < |spans| :: spans[h].start <= i < spans[h].end
  }

  /** The hits give each reported call's line and its text, without the space before the
      parenthesis. */
  ghost predicate Rendered(text: string, spans: seq<Span>, hits: seq<(nat, string)>) {
    |hits| == |spans| && forall h | 0 <= h < |hits| :: IsHit(text, spans[h], hits[h])
  }

  ghost predicate IsHit(text: string, span: Span, hit: (nat, string)) {
    && span.start + 13 <= |text| && text[span.start..span.start + 13] == "HTTPException"
    && span.open <= span.end <= |text|
    && hit == (LineOf(text, span.start), "HTTPException" + text[span.open..span.end])
  }

  /** Every complete call that starts before `to` is reported or lies inside a reported one. */
  ghost predicate CoveredTo(calls: map<nat, Span>, spans: seq<Span>, to: nat) {
    && (forall h | 0 <= h < |spans| :: spans[h].end <= to)
    && (forall i {:trigger Inside(spans, i)} | i in calls && i < to :: Inside(spans, i))
  }

  ghost predicate NoCallBetween(calls: map<nat, Span>, from: nat, to: nat) {
    forall i | i in calls :: i < from || to <= i
  }

  /** `text.find(token, pos)`: searching for the name skips no call. */
  method FindName(text: string, pos: nat) returns (found: Option<nat>)
    ensures found.Some? ==> pos <= found.value && TokenAt(text, found.value)
    ensures NoCallBetween(Calls(text), pos, if found.Some? then found.value else |text|)
  {
    found := Find(text, pos);
    forall i | i in Calls(text)
      ensures TokenAt(text, i)
    {
    }
  }

  /** A name that is not a complete call adds nothing to report. */
  lemma Skipped(calls: map<nat, Span>, spans: seq<Span>, pos: nat, idx: nat)
    requires CoveredTo(calls, spans, pos) && pos <= idx
    requires NoCallBetween(calls, pos, idx) && idx !in calls
    ensures CoveredTo(calls, spans, idx + 1)
  {
  }

  /** What was reported stays reported. */
  lemma StillInside(spans: seq<Span>, call: Span, i: nat)
    requires Inside(spans, i)
    ensures Inside(spans + [call], i)
  {
    var h :| 0 <= h < |spans| && spans[h].start <= i < spans[h].end;
    assert (spans + [call])[h] == spans[h];
  }

  /** Reporting one more call covers everything up to its end. */
  lemma Extended(calls: map<nat, Span>, spans: seq<Span>, call: Span, pos: nat)
    requires Reported(calls, spans) && CoveredTo(calls, spans, pos)
    requires call.start in calls && calls[call.start] == call && pos <= call.start
    requires NoCallBetween(calls, pos, call.start) && call.start < call.end
    ensures Reported(calls, spans + [call]) && CoveredTo(calls, spans + [call], call.end)
  {
    var more := spans + [call];
    assert more[|spans|] == call && forall h | 0 <= h < |spans| :: more[h] == spans[h];
    forall i {:trigger Inside(more, i)} | i in calls && i < call.end
      ensures Inside(more, i)
    {
      if i < pos {
        StillInside(spans, call, i);
      }
    }
  }

  lemma RenderedMore(text: string, spans: seq<Span>, hits: seq<(nat, string)>, span: Span, hit: (nat, string))
    requires Rendered(text, spans, hits) && IsHit(text, span, hit)
    ensures Rendered(text, spans + [span], hits + [hit])
  {
  }

  /** Past the name: spaces, the opening parenthesis, the balanced span. */
  method CallFrom(text: string, idx: nat) returns (open: nat, span: Option<string>)
    requires TokenAt(text, idx)
    ensures span.Some? <==> CallAt(text, idx).Some?
    ensures span.Some? ==> CallAt(text, idx) == Some(Span(idx, open, open + |span.value|))
                           && open + |span.value| <= |text| && span.value == text[open..open + |span.value|]
  {
    open := idx + |TOKEN|;
    while open < |text| && IsSpace(text[open])
      invariant idx + |TOKEN| <= open <= |text|
      invariant SkipSpaces(text, idx + |TOKEN|) == SkipSpaces(text, open)
    {
      open := open + 1;
    }
    if open >= |text| || text[open] != '(' {
      return open, None;
    }
    span := ExtractBalancedParen(text, open);
  }

  lemma CallsAt(text: string, i: nat)
    requires i < |text|
    ensures i in Calls(text) <==> CallAt(text, i).Some?
    ensures i in Calls(text) ==> Calls(text)[i] == CallAt(text, i).value
  {
  }

  /** The call that starts at the name at `idx`, if it is complete. */
  method NextBlock(text: string, idx: nat) returns (hit: Option<(nat, string)>, ghost call: Span, next: nat)
    requires TokenAt(text, idx)
    ensures hit.Some? <==> CallAt(text, idx).Some?
    ensures hit.Some? ==> call == CallAt(text, idx).value && IsHit(text, call, hit.value)
    ensures if hit.Some? then next == call.end && call.start == idx else next == idx + 1
    ensures idx < next <= |text|
  {
    call := Span(idx, 0, 0);
    var open, span := CallFrom(text, idx);
    if span.None? {
      return None, call, idx + 1;
    }
    var lines := CountNewlines(text, idx);
    call := Span(idx, open, open + |span.value|);
    return Some((lines + 1, TOKEN + span.value)), call, open + |span.value|;
  }

  /** A full report: complete calls in order, without overlap, rendered as the hits, and none
      missed except one that starts inside a call already reported. */
  ghost predicate IsReport(text: string, spans: seq<Span>, hits: seq<(nat, string)>) {
    && Reported(Calls(text), spans) && Rendered(text, spans, hits)
    && (forall i {:trigger Inside(spans, i)} | i in Calls(text) :: Inside(spans, i))
  }

  /** `_iter_http_exception_blocks`. */
  method IterHttpExceptionBlocks(text: string) returns (hits: seq<(nat, string)>)
    ensures exists spans :: IsReport(text, spans, hits)
  {
    hits := [];
    ghost var spans: seq<Span> := [];
    var pos := 0;
    ghost var calls := Calls(text);
    while true
      invariant pos <= |text|
      invariant Reported(calls, spans) && Rendered(text, spans, hits) && CoveredTo(calls, spans, pos)
      decreases |text| - pos
    {
      var found := FindName(text, pos);
      if found.None? {
        break;
      }
      var hit, call, next := NextBlock(text, found.value);
      CallsAt(text, found.value);
      if hit.Some? {
        Extended(calls, spans, call, pos);
        RenderedMore(text, spans, hits, call, hit.value);
        hits, spans := hits + [hit.value], spans + [call];
      } else {
        Skipped(calls, spans, pos, found.value);
      }
      pos := next;
    }
    assert IsReport(text, spans, hits);
  }
}
