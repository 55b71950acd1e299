/**
 * Prop names of a component, derived from the text captured between the braces of its
 * destructured parameter (`{ title, onSave = noop, size?: number }`): split on `,`, trim,
 * drop empty entries, cut each at the first `=` and then at the first `:`, drop one trailing
 * `?`, trim again and drop what became empty.
 */
module PropNames {
  import opened Wrappers
  import opened Text

  /** `.replace(/\?$/, "")`: one `?` at the very end is removed. */
  function DropQuestion(s: string): (r: string)
    ensures r <= s
    ensures s != [] && s[|s| - 1] == '?' ==> |r| == |s| - 1
    ensures (s == [] || s[|s| - 1] != '?') ==> r == s
  {
    if s != [] && s[|s| - 1] == '?' then s[..|s| - 1] else s
  }

  /** `p.split("=")[0].split(":")[0].replace(/\?$/, "").trim()`. */
  function CleanEntry(p: string): (name: string)
    ensures Trimmed(name)
    ensures '=' !in name && ':' !in name
    ensures forall c :: c in name ==> c in p
  {
    var d := Before(p, '=');
    var b := Before(d, ':');
    var q := DropQuestion(b);
    assert forall c :: c in q ==> c in b && c in d && c in p;
    Trim(q)
  }

  /** What one comma-separated entry contributes: nothing, or one name. */
  function DeriveEntry(p: string): (name: Option<string>)
    ensures name.Some? ==> name.value != [] && Trimmed(name.value)
    ensures name.Some? ==> '=' !in name.value && ':' !in name.value
    ensures name.Some? ==> forall c :: c in name.value ==> c in p
  {
    var t := Trim(p);
    if t == [] then None
    else
      var n := CleanEntry(t);
      if n == [] then None else Some(n)
  }

  /** The names of a list of entries, entry by entry and in order. */
  function DeriveFrom(pieces: seq<string>): (names: seq<string>)
    ensures |names| <= |pieces|
  {
    if pieces == [] then []
    else
      match DeriveEntry(pieces[0])
      case None => DeriveFrom(pieces[1..])
      case Some(n) => [n] + DeriveFrom(pieces[1..])
  }

  /** A derived prop name: non-empty, trimmed, and free of the characters the chain cuts at. */
  predicate IsPropName(n: string) {
    n != [] && Trimmed(n) && ',' !in n && '=' !in n && ':' !in n
  }

  /** Every name derived from comma-free entries has the shape of a prop name. */
  lemma {:induction false} DeriveFromShape(pieces: seq<string>)
    requires forall k :: 0 <= k < |pieces| ==> ',' !in pieces[k]
    ensures forall k :: 0 <= k < |DeriveFrom(pieces)| ==> IsPropName(DeriveFrom(pieces)[k])
  {
    if pieces != [] {
      var rest := DeriveFrom(pieces[1..]);
      assert forall k :: 0 <= k < |pieces[1..]| ==> ',' !in pieces[1..][k] by {
        forall k | 0 <= k < |pieces[1..]|
          ensures ',' !in pieces[1..][k]
        {
          assert pieces[1..][k] == pieces[k + 1];
        }
      }
      DeriveFromShape(pieces[1..]);
      match DeriveEntry(pieces[0])
      case None =>
        assert DeriveFrom(pieces) == rest;
      case Some(n) =>
        assert ',' !in n by {
          assert ',' !in pieces[0];
        }
        var all := DeriveFrom(pieces);
        assert all == [n] + rest;
        forall k | 0 <= k < |all|
          ensures IsPropName(all[k])
        {
          if k > 0 {
            assert all[k] == rest[k - 1];
          }
        }
    }
  }

  /** Entries are handled one by one, so the names of two lists of entries concatenate. */
  lemma {:induction false} DeriveFromAppend(a: seq<string>, b: seq<string>)
    ensures DeriveFrom(a + b) == DeriveFrom(a) + DeriveFrom(b)
  {
    if a != [] {
      assert (a + b)[0] == a[0];
      assert (a + b)[1..] == a[1..] + b;
      DeriveFromAppend(a[1..], b);
      match DeriveEntry(a[0])
      case None =>
      case Some(n) =>
        AppendAssoc([n], DeriveFrom(a[1..]), DeriveFrom(b));
    } else {
      assert a + b == b;
    }
  }

  /** The prop names of a captured destructuring text. */
  function DerivePropNames(raw: string): (names: seq<string>)
    ensures |names| <= |Split(raw, ',')|
    ensures forall k :: 0 <= k < |names| ==> IsPropName(names[k])
  {
    DeriveFromShape(Split(raw, ','));
    DeriveFrom(Split(raw, ','))
  }

  /**
   * Order is kept and nothing is merged: the names of two texts joined by a comma are the
   * names of the first followed by the names of the second, duplicates included.
   */
  lemma DeriveAppend(a: string, b: string)
    ensures DerivePropNames(a + [','] + b) == DerivePropNames(a) + DerivePropNames(b)
  {
    SplitAppend(a, b, ',');
    DeriveFromAppend(Split(a, ','), Split(b, ','));
  }

  /** A name that the chain leaves as it is: a prop name not ending in `?`. */
  predicate IsCleanName(n: string) {
    IsPropName(n) && n[|n| - 1] != '?'
  }

  /** Cutting at a character that does not occur changes nothing. */
  lemma BeforeAbsent(s: string, c: char)
    requires c !in s
    ensures Before(s, c) == s
  {
  }

  /** A clean name goes through the chain unchanged. */
  lemma CleanEntryClean(n: string)
    requires IsCleanName(n)
    ensures CleanEntry(n) == n
  {
    BeforeAbsent(n, '=');
    BeforeAbsent(n, ':');
    TrimOfTrimmed(n);
  }

  /** A clean name is its own derivation, whatever white space precedes it. */
  lemma DeriveEntryClean(w: string, n: string)
    requires AllSpace(w) && IsCleanName(n)
    ensures DeriveEntry(w + n) == Some(n)
  {
    TrimLeadingSpace(w, n);
    TrimOfTrimmed(n);
    CleanEntryClean(n);
  }

  /** The text the chain cuts at `=` and then at `:` is the text before the first of them. */
  lemma CutAtMarker(a: string, tail: string)
    requires '=' !in a && ':' !in a
    requires tail == [] || tail[0] == '=' || tail[0] == ':'
    ensures Before(Before(a + tail, '='), ':') == a
  {
    BeforeAppend(a, tail, '=');
    var t := Before(tail, '=');
    if tail != [] && tail[0] == ':' {
      assert t != [] && t[0] == ':';
    }
    BeforeAppend(a, t, ':');
    assert Before(t, ':') == [];
    assert a + [] == a;
  }

  /** White space holds none of the characters the chain cuts at. */
  lemma SpaceNoCut(w: string)
    requires AllSpace(w)
    ensures '=' !in w && ':' !in w && '?' !in w && ',' !in w
  {
  }

  /**
   * A name followed by white space and then a default value or a type: the chain keeps the
   * name alone, whatever the default or the type is.
   */
  lemma CleanEntryCut(w: string, n: string, w2: string, tail: string)
    requires AllSpace(w) && AllSpace(w2) && IsCleanName(n)
    requires tail == [] || tail[0] == '=' || tail[0] == ':'
    ensures CleanEntry(w + n + w2 + tail) == n
  {
    var a := w + n + w2;
    SpaceNoCut(w);
    SpaceNoCut(w2);
    CutAtMarker(a, tail);
    assert DropQuestion(a) == a by {
      if w2 != [] {
        assert a[|a| - 1] == w2[|w2| - 1];
      } else {
        assert a[|a| - 1] == n[|n| - 1];
      }
    }
    TrimSurrounded(w, n, w2);
  }

  /** An optional prop, `name?` right before its default or type, loses the `?`. */
  lemma CleanEntryOptional(w: string, n: string, tail: string)
    requires AllSpace(w) && IsCleanName(n)
    requires tail == [] || tail[0] == '=' || tail[0] == ':'
    ensures CleanEntry(w + n + "?" + tail) == n
  {
    var a := w + n + "?";
    SpaceNoCut(w);
    CutAtMarker(a, tail);
    assert DropQuestion(a) == w + n;
    TrimSurrounded(w, n, []);
    assert w + n + [] == w + n;
  }

  /**
   * The `?` is dropped only at the very end of the cut text: with white space between it and the
   * type (`size? : number`), the name keeps its `?`.
   */
  lemma CleanEntrySpacedQuestion(n: string, w2: string, tail: string)
    requires IsCleanName(n) && AllSpace(w2) && w2 != []
    requires tail == [] || tail[0] == '=' || tail[0] == ':'
    ensures CleanEntry(n + "?" + w2 + tail) == n + "?"
  {
    var a := n + "?" + w2;
    SpaceNoCut(w2);
    CutAtMarker(a, tail);
    assert a[|a| - 1] == w2[|w2| - 1];
    assert DropQuestion(a) == a;
    TrimSurrounded([], n + "?", w2);
    assert [] + (n + "?") + w2 == a;
  }

  /** An entry whose name is followed by a default value or a type derives that name. */
  lemma DeriveEntryCut(w: string, n: string, w2: string, tail: string)
    requires AllSpace(w) && AllSpace(w2) && IsCleanName(n)
    requires tail != [] && (tail[0] == '=' || tail[0] == ':')
    ensures DeriveEntry(w + n + w2 + tail) == Some(n)
  {
    var p := w + n + w2 + tail;
    GroupMiddle(w, n, w2, tail);
    TrimKeepsParts(p, w, n + w2, tail);
    DeriveTrimmedCut(p, n, w2, tail);
  }

  lemma DeriveTrimmedCut(p: string, n: string, w2: string, tail: string)
    requires AllSpace(w2) && IsCleanName(n)
    requires tail != [] && (tail[0] == '=' || tail[0] == ':')
    requires |n + w2| < |Trim(p)| <= |n + w2| + |tail|
    requires Trim(p) == (n + w2) + tail[..|Trim(p)| - |n + w2|]
    ensures DeriveEntry(p) == Some(n)
  {
    var rest := tail[..|Trim(p)| - |n + w2|];
    assert rest[0] == tail[0];
    CleanEntryCutBare(n, w2, rest);
  }

  /** An optional entry, `name?` with or without a default or a type, derives the bare name. */
  lemma DeriveEntryOptional(w: string, n: string, tail: string)
    requires AllSpace(w) && IsCleanName(n)
    requires tail == [] || tail[0] == '=' || tail[0] == ':'
    ensures DeriveEntry(w + n + "?" + tail) == Some(n)
  {
    var p := w + n + "?" + tail;
    GroupLast(w, n, "?", tail);
    TrimKeepsParts(p, w, n, "?" + tail);
    DeriveTrimmedOptional(p, n, tail);
  }

  lemma DeriveTrimmedOptional(p: string, n: string, tail: string)
    requires IsCleanName(n)
    requires tail == [] || tail[0] == '=' || tail[0] == ':'
    requires |n| < |Trim(p)| <= |n| + |"?" + tail|
    requires Trim(p) == n + ("?" + tail)[..|Trim(p)| - |n|]
    ensures DeriveEntry(p) == Some(n)
  {
    var rest := tail[..|Trim(p)| - |n| - 1];
    assert Trim(p) == n + ("?" + rest) by {
      QuestionPrefix(tail, |Trim(p)| - |n|);
    }
    assert rest == [] || rest[0] == tail[0];
    CleanEntryOptionalBare(n, rest);
  }

  lemma GroupMiddle(a: string, b: string, c: string, d: string)
    ensures a + b + c + d == a + (b + c) + d
    ensures b != [] ==> (b + c)[0] == b[0]
  {
  }

  lemma GroupLast(a: string, b: string, c: string, d: string)
    ensures a + b + c + d == a + b + (c + d)
    ensures c != [] ==> (c + d)[0] == c[0]
  {
  }

  lemma EmptyFront(a: string, b: string, c: string)
    ensures [] + a + b + c == (a + b) + c
  {
  }

  lemma EmptyFrontQuestion(a: string, c: string)
    ensures [] + a + "?" + c == a + ("?" + c)
  {
  }

  lemma CleanEntryCutBare(n: string, w2: string, rest: string)
    requires AllSpace(w2) && IsCleanName(n)
    requires rest == [] || rest[0] == '=' || rest[0] == ':'
    ensures CleanEntry((n + w2) + rest) == n
  {
    CleanEntryCut([], n, w2, rest);
    EmptyFront(n, w2, rest);
  }

  lemma CleanEntryOptionalBare(n: string, rest: string)
    requires IsCleanName(n)
    requires rest == [] || rest[0] == '=' || rest[0] == ':'
    ensures CleanEntry(n + ("?" + rest)) == n
  {
    CleanEntryOptional([], n, rest);
    EmptyFrontQuestion(n, rest);
  }

  lemma QuestionPrefix(tail: string, m: nat)
    requires 1 <= m <= |tail| + 1
    ensures ("?" + tail)[..m] == "?" + tail[..m - 1]
  {
  }

  /** A text without a comma is one entry. */
  lemma DeriveSingle(p: string, n: string)
    requires ',' !in p && DeriveEntry(p) == Some(n)
    ensures DerivePropNames(p) == [n]
  {
    SplitNone(p, ',');
    assert [p][1..] == [];
  }

  /** The destructuring `{ title, onSave = noop, size?: number }` names `title`, `onSave` and `size`. */
  lemma DeriveExample()
    ensures DerivePropNames(" title, onSave = noop, size?: number ") == ["title", "onSave", "size"]
  {
    var a, b, c := " title", " onSave = noop", " size?: number ";
    ExampleSplits();
    DeriveAppend(a, b + [','] + c);
    DeriveAppend(b, c);
    ExampleTitle();
    ExampleOnSave();
    ExampleSize();
    ThreeNames("title", "onSave", "size");
  }

  lemma ThreeNames(x: string, y: string, z: string)
    ensures [x] + ([y] + [z]) == [x, y, z]
  {
  }

  lemma ExampleSplits()
    ensures " title, onSave = noop, size?: number "
      == " title" + [','] + (" onSave = noop" + [','] + " size?: number ")
  {
  }

  lemma ExampleTitle()
    ensures DerivePropNames(" title") == ["title"]
  {
    assert " title" == " " + "title";
    DeriveOne(" ", "title");
  }

  lemma ExampleOnSave()
    ensures DerivePropNames(" onSave = noop") == ["onSave"]
  {
    var b := " onSave = noop";
    assert ',' !in b;
    assert DeriveEntry(b) == Some("onSave") by {
      assert b == " " + "onSave" + " " + "= noop";
      DeriveEntryCut(" ", "onSave", " ", "= noop");
    }
    DeriveSingle(b, "onSave");
  }

  lemma ExampleSize()
    ensures DerivePropNames(" size?: number ") == ["size"]
  {
    var c := " size?: number ";
    assert ',' !in c;
    assert DeriveEntry(c) == Some("size") by {
      assert c == " " + "size" + "?" + ": number ";
      DeriveEntryOptional(" ", "size", ": number ");
    }
    DeriveSingle(c, "size");
  }

  /** Only white space derives no name. */
  lemma DeriveSpace(w: string)
    requires AllSpace(w) && ',' !in w
    ensures DerivePropNames(w) == []
  {
    SplitNone(w, ',');
  }

  /** One clean name, after white space, derives exactly itself. */
  lemma DeriveOne(w: string, n: string)
    requires AllSpace(w) && ',' !in w && IsCleanName(n)
    ensures DerivePropNames(w + n) == [n]
  {
    assert ',' !in w + n;
    SplitNone(w + n, ',');
    DeriveEntryClean(w, n);
  }

  /**
   * Round trip with the text the extension writes into a definition: the names of
   * `names.join(", ")` are `names` again, when every name is clean (white space before the
   * joined text does not matter).
   */
  lemma {:induction false} DeriveJoin(w: string, names: seq<string>)
    requires AllSpace(w) && ',' !in w
    requires forall k :: 0 <= k < |names| ==> IsCleanName(names[k])
    ensures DerivePropNames(w + Join(names, ", ")) == names
    decreases |names|
  {
    if names == [] {
      assert w + Join(names, ", ") == w;
      DeriveSpace(w);
    } else if |names| == 1 {
      assert w + Join(names, ", ") == w + names[0];
      DeriveOne(w, names[0]);
    } else {
      var n := names[0];
      var rest := Join(names[1..], ", ");
      assert Join(names, ", ") == n + ", " + rest;
      assert forall k :: 0 <= k < |names[1..]| ==> IsCleanName(names[1..][k]) by {
        forall k | 0 <= k < |names[1..]|
          ensures IsCleanName(names[1..][k])
        {
          assert names[1..][k] == names[k + 1];
        }
      }
      DeriveJoin(" ", names[1..]);
      DeriveJoinStep(w, n, rest, names[1..]);
      HeadTail(names);
    }
  }

  /** One more name in front of a joined list. */
  lemma DeriveJoinStep(w: string, n: string, rest: string, tail: seq<string>)
    requires AllSpace(w) && ',' !in w && IsCleanName(n)
    requires DerivePropNames(" " + rest) == tail
    ensures DerivePropNames(w + (n + ", " + rest)) == [n] + tail
  {
    JoinPieces(w, n, rest);
    DeriveOne(w, n);
    DeriveAppend(w + n, " " + rest);
  }

  /** The comma of a joined list separates what precedes it from a blank and the rest. */
  lemma JoinPieces(w: string, n: string, rest: string)
    ensures w + (n + ", " + rest) == (w + n) + [','] + (" " + rest)
  {
    assert ", " == [','] + " ";
  }

  /** The names the extension writes back into a definition are read back unchanged. */
  lemma DeriveJoinRoundTrip(names: seq<string>)
    requires forall k :: 0 <= k < |names| ==> IsCleanName(names[k])
    ensures DerivePropNames(Join(names, ", ")) == names
  {
    DeriveJoin("", names);
    assert "" + Join(names, ", ") == Join(names, ", ");
  }

  /** Duplicates survive the derivation: `n, n` names the prop `n` twice. */
  lemma DeriveKeepsDuplicates(n: string)
    requires IsCleanName(n)
    ensures DerivePropNames(n + ", " + n) == [n, n]
  {
    DeriveJoinRoundTrip([n, n]);
    assert [n, n][1..] == [n];
    assert Join([n], ", ") == n;
    assert Join([n, n], ", ") == n + ", " + n;
  }
}
