/**
 * The JSX attribute scanner of the prop synchroniser: a single left-to-right cursor that
 * cuts the attribute list of a tag (the text between the tag name and `>` or `/>`) into
 * records, keeping each record's exact source text so that untouched attributes can be
 * written back verbatim.
 */
module JsxAttributes {
  import opened Wrappers
  import opened Text

  /** One attribute as the scanner cuts it: its name, absent for `{...spread}` expressions and
      unrecognised chunks, and its source text including the white space in front of it. */
  datatype ParsedAttr = ParsedAttr(name: Option<string>, text: string)

  /** `[A-Za-z_$]`: the characters an attribute name may start with. */
  predicate IsIdentStart(c: char) {
    ('a' <= c <= 'z') || ('A' <= c <= 'Z') || c == '_' || c == '$'
  }

  /** `[A-Za-z0-9_$]`: the characters an attribute name is made of. */
  predicate IsIdentChar(c: char) {
    IsIdentStart(c) || ('0' <= c <= '9')
  }

  /** The characters an unquoted value runs over: anything but white space, `>` and `/`. */
  predicate IsUnquotedChar(c: char) {
    !IsSpace(c) && c != '>' && c != '/'
  }

  /**
   * The brace loop started at `i` with the given depth: one past the `}` that brings the
   * depth back to zero, or the end of the text when no brace closes it. Braces inside quoted
   * strings count like any other.
   */
  function BraceEnd(s: string, i: nat, depth: int): (j: nat)
    requires i <= |s|
    ensures i <= j <= |s|
    ensures i < |s| ==> i < j
    decreases |s| - i
  {
    if i == |s| then i
    else if s[i] == '{' then BraceEnd(s, i + 1, depth + 1)
    else if s[i] == '}' then (if depth - 1 == 0 then i + 1 else BraceEnd(s, i + 1, depth - 1))
    else BraceEnd(s, i + 1, depth)
  }

  /**
   * The quoted-string loop started just after the opening quote: one past the first `quote`
   * not preceded by a backslash, or the end of the text.
   */
  function QuoteEnd(s: string, i: nat, quote: char): (j: nat)
    requires 1 <= i <= |s|
    ensures i <= j <= |s|
    decreases |s| - i
  {
    if i == |s| then i
    else if s[i] == quote && s[i - 1] != '\\' then i + 1
    else QuoteEnd(s, i + 1, quote)
  }

  /** Where an attribute value that starts at `v` ends: brace-balanced, quote-balanced or unquoted. */
  function ValueEnd(s: string, v: nat): (e: nat)
    requires v < |s|
    ensures v <= e <= |s|
  {
    if s[v] == '{' then BraceEnd(s, v, 0)
    else if s[v] == '"' || s[v] == '\'' then QuoteEnd(s, v + 1, s[v])
    else SkipWhile(s, v, IsUnquotedChar)
  }

  /** What one character does to the brace depth. */
  function BraceStep(depth: int, c: char): int {
    if c == '{' then depth + 1 else if c == '}' then depth - 1 else depth
  }

  /** The brace depth once the characters `s[i..k]` are counted, starting from `depth`. */
  function DepthAfter(s: string, i: nat, k: nat, depth: int): int
    requires i <= k <= |s|
    decreases k - i
  {
    if i == k then depth else DepthAfter(s, i + 1, k, BraceStep(depth, s[i]))
  }

  /** `s[k - 1]` is a `}` that brings the depth counted from `i` back to zero. */
  predicate ClosesAt(s: string, i: nat, k: nat, depth: int) {
    i < k <= |s| && s[k - 1] == '}' && DepthAfter(s, i, k, depth) == 0
  }

  /**
   * The brace scan ends one past the first `}` that brings the depth back to zero, or at the end
   * of the text when there is no such `}`.
   */
  lemma {:induction false} BraceEndExact(s: string, i: nat, depth: int)
    requires i <= |s|
    ensures ClosesAt(s, i, BraceEnd(s, i, depth), depth)
      || (BraceEnd(s, i, depth) == |s| && forall k :: i < k <= |s| ==> !ClosesAt(s, i, k, depth))
    ensures forall k :: i < k < BraceEnd(s, i, depth) ==> !ClosesAt(s, i, k, depth)
    decreases |s| - i
  {
    if i < |s| {
      var d := BraceStep(depth, s[i]);
      assert DepthAfter(s, i, i + 1, depth) == d;
      if !(s[i] == '}' && depth - 1 == 0) {
        BraceEndExact(s, i + 1, d);
        assert BraceEnd(s, i, depth) == BraceEnd(s, i + 1, d);
        forall k | i + 1 < k <= |s|
          ensures ClosesAt(s, i, k, depth) == ClosesAt(s, i + 1, k, d)
        {
          assert DepthAfter(s, i, k, depth) == DepthAfter(s, i + 1, k, d);
        }
      }
    }
  }

  /** `s[k]` is a `quote` that ends a quoted value: it is not preceded by a backslash. */
  predicate ClosingQuote(s: string, k: nat, quote: char) {
    1 <= k < |s| && s[k] == quote && s[k - 1] != '\\'
  }

  /**
   * The quoted-value scan ends one past the first unescaped `quote` at or after `i`, or at the end
   * of the text when there is none.
   */
  lemma {:induction false} QuoteEndExact(s: string, i: nat, quote: char)
    requires 1 <= i <= |s|
    ensures (i < QuoteEnd(s, i, quote) && ClosingQuote(s, QuoteEnd(s, i, quote) - 1, quote))
      || (QuoteEnd(s, i, quote) == |s| && forall k :: i <= k < |s| ==> !ClosingQuote(s, k, quote))
    ensures forall k :: i <= k < QuoteEnd(s, i, quote) - 1 ==> !ClosingQuote(s, k, quote)
    decreases |s| - i
  {
    if i < |s| && !ClosingQuote(s, i, quote) {
      QuoteEndExact(s, i + 1, quote);
    }
  }

  /**
   * Where a value ends, case by case: after its balanced braces, after its closing quote, or at
   * the end of the longest run of characters an unquoted value may hold.
   */
  lemma ValueEndExact(s: string, v: nat)
    requires v < |s|
    ensures s[v] == '{' ==>
      ClosesAt(s, v, ValueEnd(s, v), 0)
      || (ValueEnd(s, v) == |s| && forall k :: v < k <= |s| ==> !ClosesAt(s, v, k, 0))
    ensures s[v] == '{' ==> forall k :: v < k < ValueEnd(s, v) ==> !ClosesAt(s, v, k, 0)
    ensures (s[v] == '"' || s[v] == '\'') ==>
      (v + 1 < ValueEnd(s, v) && ClosingQuote(s, ValueEnd(s, v) - 1, s[v]))
      || (ValueEnd(s, v) == |s| && forall k :: v < k < |s| ==> !ClosingQuote(s, k, s[v]))
    ensures (s[v] == '"' || s[v] == '\'') ==>
      forall k :: v < k < ValueEnd(s, v) - 1 ==> !ClosingQuote(s, k, s[v])
    ensures s[v] != '{' && s[v] != '"' && s[v] != '\'' ==>
      (forall k :: v <= k < ValueEnd(s, v) ==> IsUnquotedChar(s[k]))
      && (ValueEnd(s, v) == |s| || !IsUnquotedChar(s[ValueEnd(s, v)]))
  {
    if s[v] == '{' {
      BraceEndExact(s, v, 0);
    } else if s[v] == '"' || s[v] == '\'' {
      QuoteEndExact(s, v + 1, s[v]);
    } else {
      SkipWhileRun(s, v, IsUnquotedChar);
    }
  }

  /** A record and the position where the scan goes on. */
  datatype Cut = Cut(attr: ParsedAttr, next: nat)

  /**
   * One turn of the scanner's outer loop at `start`: None when only white space is left,
   * otherwise the record it pushes and the position of the next turn.
   */
  function NextAttr(s: string, start: nat): (r: Option<Cut>)
    requires start <= |s|
    ensures r.Some? ==> start < r.value.next <= |s| && r.value.attr.text == s[start..r.value.next]
    ensures r.Some? ==> SkipWhile(s, start, IsSpace) < r.value.next
    ensures r.None? <==> SkipWhile(s, start, IsSpace) == |s|
  {
    var i := SkipWhile(s, start, IsSpace);
    if i == |s| then None
    else if s[i] == '{' then
      var e := BraceEnd(s, i, 0);
      Some(Cut(ParsedAttr(None, s[start..e]), e))
    else if !IsIdentStart(s[i]) then
      var e := SkipWhile(s, i, NotSpace);
      Some(Cut(ParsedAttr(None, s[start..e]), e))
    else Some(NamedAttr(s, start, i))
  }

  /**
   * The record of an attribute whose name starts at `i`: a boolean prop when no `=` follows
   * the name (its text then takes in the white space after the name), a valued one otherwise.
   */
  function NamedAttr(s: string, start: nat, i: nat): (c: Cut)
    requires start <= i < |s| && IsIdentStart(s[i])
    ensures i < c.next <= |s| && c.attr.text == s[start..c.next]
    ensures SkipWhile(s, i, IsIdentChar) <= c.next
    ensures c.attr.name == Some(s[i..SkipWhile(s, i, IsIdentChar)])
  {
    var ne := SkipWhile(s, i, IsIdentChar);
    var j := SkipWhile(s, ne, IsSpace);
    if j == |s| || s[j] != '=' then
      Cut(ParsedAttr(Some(s[i..ne]), s[start..j]), j)
    else
      var v := SkipWhile(s, j + 1, IsSpace);
      var e := if v == |s| then v else ValueEnd(s, v);
      Cut(ParsedAttr(Some(s[i..ne]), s[start..e]), e)
  }

  /** The records the scanner produces from position `start` on. */
  function ScanFrom(s: string, start: nat): seq<ParsedAttr>
    requires start <= |s|
    decreases |s| - start
  {
    match NextAttr(s, start)
    case None => []
    case Some(c) => [c.attr] + ScanFrom(s, c.next)
  }

  /** The whole attribute list, scanned. */
  function ScanAttrs(s: string): seq<ParsedAttr> {
    ScanFrom(s, 0)
  }

  /** The records' texts, in order. */
  function Texts(attrs: seq<ParsedAttr>): seq<string> {
    if attrs == [] then [] else Texts(attrs[..|attrs| - 1]) + [attrs[|attrs| - 1].text]
  }

  lemma {:induction false} TextsAppend(a: seq<ParsedAttr>, b: seq<ParsedAttr>)
    ensures Texts(a + b) == Texts(a) + Texts(b)
    decreases |b|
  {
    if b == [] {
      assert a + b == a;
    } else {
      TextsAppend(a, b[..|b| - 1]);
      assert (a + b)[..|a + b| - 1] == a + b[..|b| - 1];
    }
  }

  /** The records written back one after the other: `texts.join("")`. */
  function Rendered(attrs: seq<ParsedAttr>): string {
    Concat(Texts(attrs))
  }

  lemma RenderedCons(a: ParsedAttr, rest: seq<ParsedAttr>)
    ensures Rendered([a] + rest) == a.text + Rendered(rest)
  {
    TextsAppend([a], rest);
    ConcatAppend([a.text], Texts(rest));
    assert Texts([a]) == [a.text];
    assert Concat([a.text]) == a.text;
  }

  /**
   * From `start` on, the records' texts put back together are a prefix of the rest of the input,
   * and what they leave over is white space only.
   */
  lemma {:induction false} ScanFromCoversPrefix(s: string, start: nat)
    requires start <= |s|
    ensures start + |Rendered(ScanFrom(s, start))| <= |s|
    ensures s[start..start + |Rendered(ScanFrom(s, start))|] == Rendered(ScanFrom(s, start))
    ensures AllSpace(s[start + |Rendered(ScanFrom(s, start))|..])
    decreases |s| - start
  {
    match NextAttr(s, start)
    case None =>
      SpaceToEnd(s, start);
      assert Rendered([]) == "";
    case Some(c) =>
      ScanFromCoversPrefix(s, c.next);
      RenderedCons(c.attr, ScanFrom(s, c.next));
      CoverStep(s, start, c.next, c.attr.text, Rendered(ScanFrom(s, c.next)));
  }

  /** A record's text in front of a covered rest covers from the record's start. */
  lemma CoverStep(s: string, start: nat, next: nat, text: string, t: string)
    requires start <= next <= |s| && text == s[start..next]
    requires next + |t| <= |s| && s[next..next + |t|] == t && AllSpace(s[next + |t|..])
    ensures start + |text + t| <= |s| && s[start..start + |text + t|] == text + t
    ensures AllSpace(s[start + |text + t|..])
  {
    assert start + |text + t| == next + |t|;
    assert s[start..next + |t|] == s[start..next] + s[next..next + |t|];
  }

  /** When only white space is left, the rest of the input is white space. */
  lemma SpaceToEnd(s: string, start: nat)
    requires start <= |s| && SkipWhile(s, start, IsSpace) == |s|
    ensures AllSpace(s[start..])
  {
    SkipWhileRun(s, start, IsSpace);
    assert forall k :: 0 <= k < |s| - start ==> s[start..][k] == s[start + k];
  }

  /**
   * Prefix round-trip of the scanner: the texts of the records, concatenated in order, are a
   * prefix of the attribute list, and the part they leave out is white space only. The round
   * trip is not exact: white space after the last valued or braced record is dropped.
   */
  lemma ScanAttrsRoundTrip(s: string)
    ensures Rendered(ScanAttrs(s)) <= s
    ensures AllSpace(s[|Rendered(ScanAttrs(s))|..])
  {
    ScanFromCoversPrefix(s, 0);
  }

  /** `[A-Za-z_$][A-Za-z0-9_$]*`. */
  predicate IsIdentifier(name: string) {
    |name| > 0 && IsIdentStart(name[0]) && forall k :: 0 <= k < |name| ==> IsIdentChar(name[k])
  }

  /**
   * The shape of a record: white space, then at least one other character; a name exactly when
   * that character may start a name (so never for `{`), and then the name is the longest run of
   * name characters found there.
   */
  predicate WellFormed(a: ParsedAttr) {
    var k := SkipWhile(a.text, 0, IsSpace);
    k < |a.text|
    && (a.name.Some? <==> IsIdentStart(a.text[k]))
    && (a.name.Some? ==> a.name.value == a.text[k..SkipWhile(a.text, k, IsIdentChar)])
  }

  /** A well-formed record's name is an identifier. */
  lemma WellFormedName(a: ParsedAttr)
    requires WellFormed(a) && a.name.Some?
    ensures IsIdentifier(a.name.value)
  {
    var k := SkipWhile(a.text, 0, IsSpace);
    var e := SkipWhile(a.text, k, IsIdentChar);
    SkipWhileRun(a.text, k, IsIdentChar);
    assert a.name.value == a.text[k..e];
  }

  /** A slice of a slice is a slice. */
  lemma SliceOfSlice(s: string, a: nat, b: nat, x: nat, y: nat)
    requires a <= x <= y <= b <= |s|
    ensures s[a..b][x - a..y - a] == s[x..y]
  {
    forall k | 0 <= k < y - x
      ensures s[a..b][x - a..y - a][k] == s[x..y][k]
    {
    }
  }

  /** In a record's text, the leading white space ends where it ended in the input. */
  lemma LeadingSpace(s: string, start: nat, next: nat)
    requires start <= next <= |s| && SkipWhile(s, start, IsSpace) < next
    ensures SkipWhile(s[start..next], 0, IsSpace) == SkipWhile(s, start, IsSpace) - start
    ensures s[start..next][SkipWhile(s, start, IsSpace) - start] == s[SkipWhile(s, start, IsSpace)]
  {
    SkipWhileSlice(s, start, next, start, IsSpace);
  }

  /** The record of a named attribute is well formed. */
  lemma NamedWellFormed(s: string, start: nat, i: nat)
    requires start <= i < |s| && IsIdentStart(s[i]) && SkipWhile(s, start, IsSpace) == i
    ensures WellFormed(NamedAttr(s, start, i).attr)
  {
    var c := NamedAttr(s, start, i);
    var t := c.attr.text;
    LeadingSpace(s, start, c.next);
    var ne := SkipWhile(s, i, IsIdentChar);
    SkipWhileSlice(s, start, c.next, i, IsIdentChar);
    SliceOfSlice(s, start, c.next, i, ne);
  }

  lemma NextAttrWellFormed(s: string, start: nat)
    requires start <= |s| && NextAttr(s, start).Some?
    ensures WellFormed(NextAttr(s, start).value.attr)
  {
    var c := NextAttr(s, start).value;
    var i := SkipWhile(s, start, IsSpace);
    if IsIdentStart(s[i]) {
      NamedWellFormed(s, start, i);
    } else {
      LeadingSpace(s, start, c.next);
    }
  }

  /** Every record the scanner produces is well formed. */
  lemma {:induction false} ScanFromWellFormed(s: string, start: nat)
    requires start <= |s|
    ensures forall a :: a in ScanFrom(s, start) ==> WellFormed(a)
    decreases |s| - start
  {
    match NextAttr(s, start)
    case None =>
    case Some(c) =>
      NextAttrWellFormed(s, start);
      ScanFromWellFormed(s, c.next);
  }

  /**
   * Shape of the scanner's records: each holds a non-space character; a record is named exactly
   * when its first non-space character may start a name, and then its name is the longest name
   * run at that point, an identifier.
   */
  lemma ScanAttrsWellFormed(s: string)
    ensures forall a :: a in ScanAttrs(s) ==> WellFormed(a)
    ensures forall a :: a in ScanAttrs(s) && a.name.Some? ==> IsIdentifier(a.name.value)
  {
    ScanFromWellFormed(s, 0);
    forall a | a in ScanAttrs(s) && a.name.Some?
      ensures IsIdentifier(a.name.value)
    {
      WellFormedName(a);
    }
  }

  /** `parseJsxAttributes`: the outer loop, pushing one record per turn until only white space is left. */
  method ParseJsxAttributes(attrs: string) returns (res: seq<ParsedAttr>)
    ensures res == ScanAttrs(attrs)
  {
    res := [];
    var n := |attrs|;
    var i := 0;
    while i < n
      invariant 0 <= i <= n
      invariant res + ScanFrom(attrs, i) == ScanAttrs(attrs)
      decreases n - i
    {
      var cut := ScanOne(attrs, i);
      if cut.None? {
        break;
      }
      res := res + [cut.value.attr];
      i := cut.value.next;
    }
  }

  /** One turn of the outer loop of `parseJsxAttributes`, from the white space it skips to the record it pushes. */
  method ScanOne(attrs: string, start: nat) returns (cut: Option<Cut>)
    requires start <= |attrs|
    ensures cut == NextAttr(attrs, start)
  {
    var n := |attrs|;
    // leading white space belongs to the record
    var i := SkipRun(attrs, start, IsSpace);
    if i >= n {
      return None;
    }
    if attrs[i] == '{' {
      // a spread or other braced expression
      i := SkipBraced(attrs, i);
      return Some(Cut(ParsedAttr(None, attrs[start..i]), i));
    }
    if !IsIdentStart(attrs[i]) {
      // an unrecognised chunk, kept as it is
      i := SkipRun(attrs, i, NotSpace);
      return Some(Cut(ParsedAttr(None, attrs[start..i]), i));
    }
    var named := ScanNamed(attrs, start, i);
    return Some(named);
  }

  /** The rest of a turn once an attribute name is seen at `nameStart`. */
  method ScanNamed(attrs: string, start: nat, nameStart: nat) returns (cut: Cut)
    requires start <= nameStart < |attrs| && IsIdentStart(attrs[nameStart])
    ensures cut == NamedAttr(attrs, start, nameStart)
  {
    var n := |attrs|;
    var nameEnd := SkipRun(attrs, nameStart, IsIdentChar);
    var name := attrs[nameStart..nameEnd];
    var eq := SkipRun(attrs, nameEnd, IsSpace);
    if eq >= n || attrs[eq] != '=' {
      // a boolean prop
      return Cut(ParsedAttr(Some(name), attrs[start..eq]), eq);
    }
    var valueStart := SkipRun(attrs, eq + 1, IsSpace);
    if valueStart >= n {
      return Cut(ParsedAttr(Some(name), attrs[start..valueStart]), valueStart);
    }
    var valueEnd := ScanValue(attrs, valueStart);
    return Cut(ParsedAttr(Some(name), attrs[start..valueEnd]), valueEnd);
  }

  /** The value of an attribute, starting at `valueStart`. */
  method ScanValue(attrs: string, valueStart: nat) returns (i: nat)
    requires valueStart < |attrs|
    ensures i == ValueEnd(attrs, valueStart)
  {
    var ch := attrs[valueStart];
    if ch == '{' {
      i := SkipBraced(attrs, valueStart);
    } else if ch == '"' || ch == '\'' {
      i := SkipQuoted(attrs, valueStart + 1, ch);
    } else {
      i := SkipRun(attrs, valueStart, IsUnquotedChar);
    }
  }

  /** The cursor loop `while (i < n && P(attrs[i])) i++`. */
  method SkipRun(attrs: string, from: nat, P: char -> bool) returns (i: nat)
    requires from <= |attrs|
    ensures i == SkipWhile(attrs, from, P)
  {
    i := from;
    while i < |attrs| && P(attrs[i])
      invariant from <= i <= |attrs|
      invariant SkipWhile(attrs, i, P) == SkipWhile(attrs, from, P)
    {
      i := i + 1;
    }
  }

  /** The brace loop over a `{...}` expression starting at `from`. */
  method SkipBraced(attrs: string, from: nat) returns (i: nat)
    requires from <= |attrs|
    ensures i == BraceEnd(attrs, from, 0)
  {
    var depth := 0;
    i := from;
    while i < |attrs|
      invariant from <= i <= |attrs|
      invariant BraceEnd(attrs, i, depth) == BraceEnd(attrs, from, 0)
    {
      var c := attrs[i];
      if c == '{' {
        depth := depth + 1;
      } else if c == '}' {
        depth := depth - 1;
        if depth == 0 {
          i := i + 1;
          break;
        }
      }
      i := i + 1;
    }
  }

  /** The quoted-string loop, started just after the opening quote. */
  method SkipQuoted(attrs: string, from: nat, quote: char) returns (i: nat)
    requires 1 <= from <= |attrs|
    ensures i == QuoteEnd(attrs, from, quote)
  {
    i := from;
    while i < |attrs|
      invariant from <= i <= |attrs|
      invariant QuoteEnd(attrs, i, quote) == QuoteEnd(attrs, from, quote)
    {
      var c := attrs[i];
      if c == quote && attrs[i - 1] != '\\' {
        i := i + 1;
        break;
      }
      i := i + 1;
    }
  }
}
