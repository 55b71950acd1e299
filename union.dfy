/**
 * The canonical prop list of `syncDefinitionFromUsage`: a `Set` seeded with the definition's
 * props, to which every prop seen in a usage is added. The definition is rewritten only when the
 * list differs from the definition's props, and the user is told which usage props are new.
 */
module Union {
  import opened Text

  /** `Array.from(allPropsSet)`: the definition's props, then the usage's, each once. */
  function AllProps(defProps: seq<string>, usageProps: seq<string>): seq<string> {
    InsertAll(InsertAll([], defProps), usageProps)
  }

  /** The two loops that fill the set: `new Set(defProps)`, then one `add` per usage prop. */
  method BuildUnion(defProps: seq<string>, usageProps: seq<string>) returns (all: seq<string>)
    ensures all == AllProps(defProps, usageProps)
  {
    all := [];
    for k := 0 to |defProps|
      invariant all == InsertAll([], defProps[..k])
    {
      assert defProps[..k + 1] == defProps[..k] + [defProps[k]];
      InsertAllStep([], defProps[..k], defProps[k]);
      if defProps[k] !in all {
        all := all + [defProps[k]];
      }
    }
    assert defProps[..|defProps|] == defProps;
    ghost var seed := all;
    for k := 0 to |usageProps|
      invariant all == InsertAll(seed, usageProps[..k])
    {
      assert usageProps[..k + 1] == usageProps[..k] + [usageProps[k]];
      InsertAllStep(seed, usageProps[..k], usageProps[k]);
      if usageProps[k] !in all {
        all := all + [usageProps[k]];
      }
    }
    assert usageProps[..|usageProps|] == usageProps;
  }

  /** Every definition prop and every usage prop is in the list, nothing else is, and nothing
      is there twice. */
  lemma AllPropsMembers(defProps: seq<string>, usageProps: seq<string>)
    ensures forall x :: x in AllProps(defProps, usageProps) <==> x in defProps || x in usageProps
    ensures NoDup(AllProps(defProps, usageProps))
  {
    InsertAllMembers([], defProps);
    InsertAllMembers(InsertAll([], defProps), usageProps);
    InsertAllNoDup([], defProps);
    InsertAllNoDup(InsertAll([], defProps), usageProps);
  }

  /**
   * The union only adds: when the definition's props are distinct they come first, unchanged,
   * followed by the usage props they lack, in the order the usage first sets them.
   */
  lemma AllPropsExtends(defProps: seq<string>, usageProps: seq<string>)
    requires NoDup(defProps)
    ensures AllProps(defProps, usageProps) == defProps + InsertAll([], Without(usageProps, Elems(defProps)))
  {
    InsertAllDistinct(defProps);
    InsertAllAfter(defProps, [], usageProps);
    assert defProps + [] == defProps;
  }

  /** `sameLength && defProps.every((p, i) => p === allProps[i])`. */
  predicate SameContent(defProps: seq<string>, allProps: seq<string>) {
    |allProps| == |defProps| && forall i :: 0 <= i < |defProps| ==> defProps[i] == allProps[i]
  }

  /**
   * The early exit: the list equals the definition's props exactly when those props are
   * distinct and the usage sets none they lack.
   */
  lemma SameContentIff(defProps: seq<string>, usageProps: seq<string>)
    ensures SameContent(defProps, AllProps(defProps, usageProps))
      <==> NoDup(defProps) && forall p :: p in usageProps ==> p in defProps
  {
    var all := AllProps(defProps, usageProps);
    AllPropsMembers(defProps, usageProps);
    if SameContent(defProps, all) {
      assert all == defProps;
    }
    if NoDup(defProps) && forall p :: p in usageProps ==> p in defProps {
      AllPropsExtends(defProps, usageProps);
      WithoutEmpty(usageProps, Elems(defProps));
      assert all == defProps + InsertAll([], []);
    }
  }

  /** `usageProps.filter((p) => !defProps.includes(p))`: what the prompt lists as new. */
  function NewOnly(defProps: seq<string>, usageProps: seq<string>): seq<string> {
    Without(usageProps, Elems(defProps))
  }

  /** The props announced as new are exactly the usage props the definition lacks, in usage
      order; with distinct definition props they are the tail the union appends, deduplicated. */
  lemma NewOnlyExact(defProps: seq<string>, usageProps: seq<string>)
    ensures forall x :: x in NewOnly(defProps, usageProps) <==> x in usageProps && x !in defProps
    ensures NoDup(defProps) ==>
      AllProps(defProps, usageProps) == defProps + InsertAll([], NewOnly(defProps, usageProps))
  {
    WithoutMembers(usageProps, Elems(defProps));
    if NoDup(defProps) {
      AllPropsExtends(defProps, usageProps);
    }
  }

  /**
   * The prompt can announce nothing new: that happens exactly when the definition repeats a
   * prop and the usage sets none it lacks, so the rewrite only removes the repetition.
   */
  lemma EmptyAnnouncement(defProps: seq<string>, usageProps: seq<string>)
    ensures (!SameContent(defProps, AllProps(defProps, usageProps)) && NewOnly(defProps, usageProps) == [])
      <==> !NoDup(defProps) && forall p :: p in usageProps ==> p in defProps
  {
    SameContentIff(defProps, usageProps);
    WithoutMembers(usageProps, Elems(defProps));
    WithoutEmpty(usageProps, Elems(defProps));
  }

  /** Of the usage props `b` and `c`, only `c` is new to the definition `[a, b]`. */
  lemma AnnouncedExample(defProps: seq<string>, usageProps: seq<string>)
    requires defProps == ["a", "b"] && usageProps == ["b", "c"]
    ensures NewOnly(defProps, usageProps) == ["c"]
  {
    assert Elems(defProps) == {"a", "b"};
    assert usageProps == ["b"] + ["c"];
    WithoutAppend(["b"], ["c"], {"a", "b"});
  }

  /** `[a, b]` with a usage setting `b` and `c` gives `[a, b, c]`. */
  lemma UnionExample(defProps: seq<string>, usageProps: seq<string>)
    requires defProps == ["a", "b"] && usageProps == ["b", "c"]
    ensures AllProps(defProps, usageProps) == ["a", "b", "c"]
  {
    assert NoDup(defProps);
    AnnouncedExample(defProps, usageProps);
    NewOnlyExact(defProps, usageProps);
    assert InsertAll([], ["c"]) == ["c"];
  }
}
