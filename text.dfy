/**
 * Character classes and string operations of JavaScript that the extension relies on:
 * the `\s` and `\w` regular-expression classes, `trim`, `split`, `join`, `Array.filter`
 * and the insertion-ordered `Set`.
 */
module Text {

  /** JavaScript's `\s` class, which is also the set of characters `String.prototype.trim`
      removes: white space and line terminators. */
  predicate IsSpace(c: char) {
    c == ' ' || c == '\t' || c == '\n' || c == '\r' || c == '\U{B}' || c == '\U{C}'
    || c == '\U{A0}' || c == '\U{1680}' || ('\U{2000}' <= c <= '\U{200A}')
    || c == '\U{2028}' || c == '\U{2029}' || c == '\U{202F}' || c == '\U{205F}'
    || c == '\U{3000}' || c == '\U{FEFF}'
  }

  predicate NotSpace(c: char) { !IsSpace(c) }

  /** JavaScript's `\w` class; `\b` is a boundary between a `\w` character and anything else. */
  predicate IsWordChar(c: char) {
    ('a' <= c <= 'z') || ('A' <= c <= 'Z') || ('0' <= c <= '9') || c == '_'
  }

  predicate AllSpace(s: string) {
    forall k :: 0 <= k < |s| ==> IsSpace(s[k])
  }

  /** A string `trim` leaves as it is. */
  predicate Trimmed(s: string) {
    s == [] || (!IsSpace(s[0]) && !IsSpace(s[|s| - 1]))
  }

  /** The cursor loop `while (i < n && P(s[i])) i++` started at `i`. */
  function SkipWhile(s: string, i: nat, P: char -> bool): (j: nat)
    requires i <= |s|
    ensures i <= j <= |s|
    ensures j == |s| || !P(s[j])
    decreases |s| - i
  {
    if i < |s| && P(s[i]) then SkipWhile(s, i + 1, P) else i
  }

  /** Everything the loop steps over satisfies `P`. */
  lemma {:induction false} SkipWhileRun(s: string, i: nat, P: char -> bool)
    requires i <= |s|
    ensures forall k :: i <= k < SkipWhile(s, i, P) ==> P(s[k])
    decreases |s| - i
  {
    if i < |s| && P(s[i]) {
      SkipWhileRun(s, i + 1, P);
    }
  }

  /** Running the same loop inside a slice stops at the same place, as long as it stops inside it. */
  lemma {:induction false} SkipWhileSlice(s: string, a: nat, b: nat, i: nat, P: char -> bool)
    requires a <= i <= b <= |s|
    requires SkipWhile(s, i, P) <= b
    ensures a + SkipWhile(s[a..b], i - a, P) == SkipWhile(s, i, P)
    decreases b - i
  {
    if i < b {
      assert s[a..b][i - a] == s[i];
      if P(s[i]) {
        SkipWhileSlice(s, a, b, i + 1, P);
      }
    }
  }

  /** `parts.join("")`. */
  function Concat(parts: seq<string>): string {
    if parts == [] then "" else Concat(parts[..|parts| - 1]) + parts[|parts| - 1]
  }

  lemma {:induction false} ConcatAppend(a: seq<string>, b: seq<string>)
    ensures Concat(a + b) == Concat(a) + Concat(b)
    decreases |b|
  {
    if b == [] {
      assert a + b == a;
    } else {
      var init, last := b[..|b| - 1], b[|b| - 1];
      ConcatAppend(a, init);
      assert (a + b)[..|a + b| - 1] == a + init;
      assert (a + b)[|a + b| - 1] == last;
      assert Concat(a + b) == Concat(a + init) + last;
      assert Concat(b) == Concat(init) + last;
    }
  }

  /** `parts.join(sep)`. */
  function Join(parts: seq<string>, sep: string): string {
    if parts == [] then ""
    else if |parts| == 1 then parts[0]
    else parts[0] + sep + Join(parts[1..], sep)
  }

  /** Index of the first `c` in `s`, or `|s|` when there is none. */
  function IndexOf(s: string, c: char): (k: nat)
    ensures k <= |s|
    ensures forall i :: 0 <= i < k ==> s[i] != c
    ensures k < |s| ==> s[k] == c
  {
    SkipWhileRun(s, 0, x => x != c);
    SkipWhile(s, 0, x => x != c)
  }

  /** `s.split(c)[0]`: the text before the first `c`. */
  function Before(s: string, c: char): (r: string)
    ensures c !in r
    ensures r <= s
    ensures |r| < |s| ==> s[|r|] == c
  {
    s[..IndexOf(s, c)]
  }

  /** `split(c)[0]` is fixed by its three properties: whatever has them is the text before `c`. */
  lemma BeforeUnique(s: string, c: char, r: string)
    requires r <= s && c !in r && (|r| < |s| ==> s[|r|] == c)
    ensures Before(s, c) == r
  {
  }

  /** Cutting `a + t` at `c`, when `a` holds no `c`: the cut lies in `t`. */
  lemma BeforeAppend(a: string, t: string, c: char)
    requires c !in a
    ensures Before(a + t, c) == a + Before(t, c)
  {
    var r := Before(t, c);
    assert (a + t)[..|a + r|] == a + r;
    if |a + r| < |a + t| {
      assert (a + t)[|a + r|] == t[|r|];
    }
    BeforeUnique(a + t, c, a + r);
  }

  /** `s.split(sep)` for a one-character separator: the pieces between separators, never none. */
  function Split(s: string, sep: char): (pieces: seq<string>)
    ensures |pieces| >= 1
    ensures forall k :: 0 <= k < |pieces| ==> sep !in pieces[k]
    decreases |s|
  {
    var k := IndexOf(s, sep);
    if k == |s| then [s] else [s[..k]] + Split(s[k + 1..], sep)
  }

  /** Splitting at a separator that was placed between two strings splits each of them apart. */
  lemma {:induction false} SplitAppend(a: string, b: string, sep: char)
    ensures Split(a + [sep] + b, sep) == Split(a, sep) + Split(b, sep)
    decreases |a|
  {
    var s := a + [sep] + b;
    var k := IndexOf(a, sep);
    IndexOfJoined(a, b, sep);
    if k == |a| {
      assert s[..k] == a && s[k + 1..] == b;
      assert Split(a, sep) == [a];
      assert Split(s, sep) == [a] + Split(b, sep);
    } else {
      JoinedSlices(a, b, sep, k);
      assert Split(a, sep) == [a[..k]] + Split(a[k + 1..], sep);
      assert Split(s, sep) == [a[..k]] + Split(a[k + 1..] + [sep] + b, sep);
      SplitAppend(a[k + 1..], b, sep);
      AppendAssoc([a[..k]], Split(a[k + 1..], sep), Split(b, sep));
    }
  }

  /** The first separator of `a + [sep] + b` is the first of `a`, or the one placed after it. */
  lemma IndexOfJoined(a: string, b: string, sep: char)
    ensures IndexOf(a + [sep] + b, sep) == IndexOf(a, sep)
  {
    var s := a + [sep] + b;
    var k := IndexOf(a, sep);
    if k < |a| {
      assert s[k] == a[k];
    } else {
      assert s[|a|] == sep;
    }
    assert forall j :: 0 <= j < |a| ==> s[j] == a[j];
  }

  lemma JoinedSlices(a: string, b: string, sep: char, k: nat)
    requires k < |a|
    ensures (a + [sep] + b)[..k] == a[..k]
    ensures (a + [sep] + b)[k + 1..] == a[k + 1..] + [sep] + b
  {
  }

  /** A string without the separator is a single piece. */
  lemma SplitNone(s: string, sep: char)
    requires sep !in s
    ensures Split(s, sep) == [s]
  {
    assert forall i :: 0 <= i < |s| ==> s[i] != sep;
  }

  function TrimStart(s: string): (r: string)
    ensures |r| <= |s| && r == s[|s| - |r|..]
    ensures AllSpace(s[..|s| - |r|])
    ensures r == [] || !IsSpace(r[0])
  {
    SkipWhileRun(s, 0, IsSpace);
    s[SkipWhile(s, 0, IsSpace)..]
  }

  function TrimEnd(s: string): (r: string)
    ensures |r| <= |s| && r == s[..|r|]
    ensures AllSpace(s[|r|..])
    ensures r == [] || !IsSpace(r[|r| - 1])
    decreases |s|
  {
    if |s| > 0 && IsSpace(s[|s| - 1]) then TrimEnd(s[..|s| - 1]) else s
  }

  /** `s.trim()`: the middle of `s` once the white space at both ends is cut off. */
  function Trim(s: string): (r: string)
    ensures Trimmed(r)
    ensures forall c :: c in r ==> c in s
  {
    var t := TrimStart(s);
    var r := TrimEnd(t);
    assert forall c :: c in r ==> c in t;
    r
  }

  /**
   * What `trim` returns: the slice of `s` that is left once the white space at both ends is cut
   * off. With `Trimmed`, this fixes the result.
   */
  lemma TrimExact(s: string)
    ensures exists a, b :: 0 <= a <= b <= |s| && Trim(s) == s[a..b] && AllSpace(s[..a]) && AllSpace(s[b..])
  {
    TrimMiddle(s, TrimStart(s), Trim(s));
  }

  /** The trimmed text is a slice of `s` with only white space around it. */
  lemma TrimMiddle(s: string, t: string, r: string)
    requires |t| <= |s| && t == s[|s| - |t|..] && AllSpace(s[..|s| - |t|])
    requires |r| <= |t| && r == t[..|r|] && AllSpace(t[|r|..])
    ensures exists a, b :: 0 <= a <= b <= |s| && r == s[a..b] && AllSpace(s[..a]) && AllSpace(s[b..])
  {
    var a := |s| - |t|;
    var b := a + |r|;
    assert r == s[a..b];
    assert s[b..] == t[|r|..];
  }

  /** White space after a string that ends in something else is what `trimEnd` removes. */
  lemma {:induction false} TrimEndSpace(n: string, w: string)
    requires n == [] || !IsSpace(n[|n| - 1])
    requires AllSpace(w)
    ensures TrimEnd(n + w) == n
    decreases |w|
  {
    if w == [] {
      assert n + w == n;
    } else {
      var s := n + w;
      assert IsSpace(s[|s| - 1]);
      assert s[..|s| - 1] == n + w[..|w| - 1];
      TrimEndSpace(n, w[..|w| - 1]);
    }
  }

  /** Trimming a string that starts with something other than white space keeps a prefix of it,
      which reaches past every character other than white space. */
  lemma TrimKeeps(x: string, k: nat)
    requires k < |x| && !IsSpace(x[0]) && !IsSpace(x[k])
    ensures k < |Trim(x)| && Trim(x) == x[..|Trim(x)|]
  {
    assert SkipWhile(x, 0, IsSpace) == 0;
    assert TrimStart(x) == x[0..] == x;
  }

  /**
   * Leading white space, then text that starts and, at `|a|`, continues with non-space
   * characters: `trim` keeps `a` whole and a non-empty prefix of `c`.
   */
  lemma TrimKeepsParts(p: string, w: string, a: string, c: string)
    requires p == w + a + c
    requires AllSpace(w) && a != [] && !IsSpace(a[0]) && c != [] && !IsSpace(c[0])
    ensures |a| < |Trim(p)| <= |a| + |c|
    ensures Trim(p) == a + c[..|Trim(p)| - |a|]
  {
    var x := a + c;
    assert p == w + x;
    TrimLeadingSpace(w, x);
    assert x[0] == a[0] && x[|a|] == c[0];
    TrimKeeps(x, |a|);
    PrefixOfTwo(a, c, |Trim(x)|);
  }

  lemma PrefixOfTwo(a: string, c: string, m: nat)
    requires |a| <= m <= |a| + |c|
    ensures (a + c)[..m] == a + c[..m - |a|]
  {
  }

  /** Trimming a trimmed, non-empty string with white space on both sides gives it back. */
  lemma TrimSurrounded(w: string, n: string, w2: string)
    requires AllSpace(w) && AllSpace(w2) && n != [] && Trimmed(n)
    ensures Trim(w + n + w2) == n
  {
    var x := n + w2;
    TrimLeadingSpace(w, x);
    assert w + n + w2 == w + x;
    assert x[0] == n[0];
    assert TrimStart(x) == x by {
      assert SkipWhile(x, 0, IsSpace) == 0;
      assert x[0..] == x;
    }
    TrimEndSpace(n, w2);
    assert Trim(x) == TrimEnd(x);
  }

  /** Trimming a trimmed string changes nothing. */
  lemma TrimOfTrimmed(s: string)
    requires Trimmed(s)
    ensures Trim(s) == s
  {
    assert SkipWhile(s, 0, IsSpace) == 0;
    if |s| > 0 {
      assert !IsSpace(s[|s| - 1]);
    }
  }

  /** White space in front of a string does not change what `trim` returns. */
  lemma TrimLeadingSpace(w: string, s: string)
    requires AllSpace(w)
    ensures Trim(w + s) == Trim(s)
  {
    var ws := w + s;
    var j := SkipWhile(ws, 0, IsSpace);
    var j' := SkipWhile(s, 0, IsSpace);
    assert SkipWhile(ws, |w|, IsSpace) == j by {
      SkipWhileFrom(ws, 0, |w|, IsSpace);
    }
    assert j == |w| + j' by {
      SkipWhileSlice(ws, |w|, |ws|, |w|, IsSpace);
      assert ws[|w|..|ws|] == s;
    }
    assert ws[j..] == s[j'..];
  }

  /** Starting the loop anywhere in a run of `P` characters ends where the run ends. */
  lemma {:induction false} SkipWhileFrom(s: string, i: nat, m: nat, P: char -> bool)
    requires i <= m <= |s|
    requires forall k :: i <= k < m ==> P(s[k])
    ensures SkipWhile(s, i, P) == SkipWhile(s, m, P)
    decreases m - i
  {
    if i < m {
      SkipWhileFrom(s, i + 1, m, P);
    }
  }

  function Elems(xs: seq<string>): set<string> {
    set x | x in xs
  }

  predicate NoDup(xs: seq<string>) {
    forall i, j :: 0 <= i < j < |xs| ==> xs[i] != xs[j]
  }

  /** `xs.filter((x) => !drop.has(x))`: the elements of `xs` outside `drop`, in their order. */
  function Without(xs: seq<string>, drop: set<string>): (r: seq<string>)
    ensures |r| <= |xs|
  {
    if xs == [] then []
    else
      var w := Without(xs[..|xs| - 1], drop);
      var x := xs[|xs| - 1];
      if x in drop then w else w + [x]
  }

  /** An element survives the filter exactly when it was there and is not dropped. */
  lemma {:induction false} WithoutMembers(xs: seq<string>, drop: set<string>)
    ensures forall x :: x in Without(xs, drop) <==> x in xs && x !in drop
    decreases |xs|
  {
    if xs != [] {
      WithoutMembers(xs[..|xs| - 1], drop);
      assert xs == xs[..|xs| - 1] + [xs[|xs| - 1]];
    }
  }

  lemma {:induction false} WithoutAppend(a: seq<string>, b: seq<string>, drop: set<string>)
    ensures Without(a + b, drop) == Without(a, drop) + Without(b, drop)
    decreases |b|
  {
    if b == [] {
      assert a + b == a;
    } else {
      var init, x := b[..|b| - 1], b[|b| - 1];
      WithoutAppend(a, init, drop);
      assert (a + b)[..|a + b| - 1] == a + init;
      assert (a + b)[|a + b| - 1] == x;
    }
  }

  lemma WithoutSingle(x: string, drop: set<string>)
    ensures Without([x], drop) == if x in drop then [] else [x]
  {
    assert [x][..0] == [];
  }

  /** Everything is filtered out exactly when every element lies in `drop`. */
  lemma WithoutEmpty(xs: seq<string>, drop: set<string>)
    ensures Without(xs, drop) == [] <==> forall x :: x in xs ==> x in drop
  {
    WithoutMembers(xs, drop);
    if Without(xs, drop) != [] {
      assert Without(xs, drop)[0] in Without(xs, drop);
    }
  }

  /** Filtering a sequence free of duplicates leaves it free of duplicates. */
  lemma {:induction false} WithoutNoDup(xs: seq<string>, drop: set<string>)
    requires NoDup(xs)
    ensures NoDup(Without(xs, drop))
    decreases |xs|
  {
    if xs != [] {
      var init := xs[..|xs| - 1];
      WithoutNoDup(init, drop);
      WithoutMembers(init, drop);
      assert xs[|xs| - 1] !in init;
    }
  }

  /**
   * Adding each element of `xs`, in order, to a JavaScript `Set` whose contents, in
   * insertion order, are `acc`: an element already present is not added again.
   */
  function InsertAll(acc: seq<string>, xs: seq<string>): (r: seq<string>)
    ensures |acc| <= |r| <= |acc| + |xs| && r[..|acc|] == acc
  {
    if xs == [] then acc
    else
      var a := InsertAll(acc, xs[..|xs| - 1]);
      var x := xs[|xs| - 1];
      if x in a then a else a + [x]
  }

  /** One more insertion. */
  lemma InsertAllStep(acc: seq<string>, xs: seq<string>, x: string)
    ensures InsertAll(acc, xs + [x]) ==
      if x in InsertAll(acc, xs) then InsertAll(acc, xs) else InsertAll(acc, xs) + [x]
  {
    assert (xs + [x])[..|xs|] == xs;
  }

  /** The set ends up holding what it held and every inserted element, and nothing else. */
  lemma {:induction false} InsertAllMembers(acc: seq<string>, xs: seq<string>)
    ensures forall x :: x in InsertAll(acc, xs) <==> x in acc || x in xs
    decreases |xs|
  {
    if xs != [] {
      InsertAllMembers(acc, xs[..|xs| - 1]);
      assert xs == xs[..|xs| - 1] + [xs[|xs| - 1]];
    }
  }

  /** A set never holds an element twice. */
  lemma {:induction false} InsertAllNoDup(acc: seq<string>, xs: seq<string>)
    requires NoDup(acc)
    ensures NoDup(InsertAll(acc, xs))
    decreases |xs|
  {
    if xs != [] {
      InsertAllNoDup(acc, xs[..|xs| - 1]);
    }
  }

  lemma {:induction false} InsertAllConcat(acc: seq<string>, a: seq<string>, b: seq<string>)
    ensures InsertAll(acc, a + b) == InsertAll(InsertAll(acc, a), b)
    decreases |b|
  {
    if b == [] {
      assert a + b == a;
    } else {
      InsertAllConcat(acc, a, b[..|b| - 1]);
      assert (a + b)[..|a + b| - 1] == a + b[..|b| - 1];
    }
  }

  /** Inserting elements that are all distinct into an empty set keeps them as they are. */
  lemma {:induction false} InsertAllDistinct(xs: seq<string>)
    requires NoDup(xs)
    ensures InsertAll([], xs) == xs
    decreases |xs|
  {
    if xs != [] {
      var init := xs[..|xs| - 1];
      InsertAllDistinct(init);
      assert xs[|xs| - 1] !in init;
    }
  }

  lemma HeadTail(xs: seq<string>)
    requires xs != []
    ensures [xs[0]] + xs[1..] == xs
  {
  }

  lemma AppendAssoc(a: seq<string>, b: seq<string>, c: seq<string>)
    ensures (a + b) + c == a + (b + c)
  {
  }

  /**
   * Inserting `u` after a block `d` that is already present only ever appends: the result is
   * `d` followed by what inserting the elements of `u` outside `d` into `e` gives.
   */
  lemma {:induction false} InsertAllAfter(d: seq<string>, e: seq<string>, u: seq<string>)
    ensures InsertAll(d + e, u) == d + InsertAll(e, Without(u, Elems(d)))
    decreases |u|
  {
    if u != [] {
      var init, x := u[..|u| - 1], u[|u| - 1];
      assert u == init + [x];
      InsertAllAfter(d, e, init);
      var w := Without(init, Elems(d));
      var b := InsertAll(e, w);
      InsertAllStep(d + e, init, x);
      WithoutAppend(init, [x], Elems(d));
      WithoutSingle(x, Elems(d));
      if x in d {
        calc {
          InsertAll(d + e, u);
          { assert x in d + b; }
          d + b;
          { assert Without(u, Elems(d)) == w + []; assert w + [] == w; }
          d + InsertAll(e, Without(u, Elems(d)));
        }
      } else {
        InsertAllStep(e, w, x);
        assert Without(u, Elems(d)) == w + [x];
        if x in b {
          calc {
            InsertAll(d + e, u);
            { assert x in d + b; }
            d + b;
            d + InsertAll(e, w + [x]);
          }
        } else {
          calc {
            InsertAll(d + e, u);
            { assert x !in d + b; }
            (d + b) + [x];
            { AppendAssoc(d, b, [x]); }
            d + (b + [x]);
            d + InsertAll(e, w + [x]);
          }
        }
      }
    }
  }

}
