/** Relative layout names and the paths they stand for (lib/src/record/decode.rs). */
module Shorthand {
  import opened Results
  import opened Bytes
  import opened Names
  import opened Nodes
  import opened Layouts
  import Fields

  // Relative names as shorthand

  /** The layout with every relative name replaced by the dotted path it stands for. */
  function Spelled(entries: seq<Entry>, current: seq<string>): seq<Entry>
    decreases |entries|
  {
    if entries == [] then []
    else if entries[0].name == "" then [entries[0]] + Spelled(entries[1..], current)
    else
      var path := Resolve(current, entries[0].name);
      [if IsAbsolute(entries[0].name) || path == [] then entries[0] else entries[0].(name := Join(path))]
      + Spelled(entries[1..], path)
  }

  /** An item whose relative name is spelled out names its own top level. */
  function SpelledItem(item: Item): Item {
    if item.top.Some? || item.path == [] then item else item.(top := Some(item.path[0]))
  }

  lemma {:induction false} WalkIsClean(path: seq<string>, segments: seq<string>)
    requires Clean(path) && forall segment <- segments :: '.' !in segment
    ensures Clean(Walk(path, segments))
    decreases |segments|
  {
    if segments != [] {
      var next := Step(path, segments[0]);
      assert segments[0] in segments;
      forall name | name in next ensures name != "" && '.' !in name {
        assert name in path || name == segments[0];
      }
      forall segment | segment in segments[1..] ensures '.' !in segment {
        assert segment in segments;
      }
      WalkIsClean(next, segments[1..]);
    }
  }

  lemma ResolveIsClean(current: seq<string>, name: string)
    requires Clean(current)
    ensures Clean(Resolve(current, name))
  {
    hide Split, Walk;
    var segments := Split(name);
    forall segment | segment in segments[1..] ensures '.' !in segment {
      assert segment in segments;
    }
    assert segments[0] in segments;
    WalkIsClean(if segments[0] != "" then [segments[0]] else current, segments[1..]);
  }

  function SpelledItems(items: seq<Item>): (r: seq<Item>)
    ensures |r| == |items|
    ensures forall i | 0 <= i < |items| :: r[i] == SpelledItem(items[i])
  {
    seq(|items|, i requires 0 <= i < |items| => SpelledItem(items[i]))
  }

  lemma {:induction false} ItemsOfSpelled(entries: seq<Entry>, current: seq<string>, data: seq<byte>, base: nat)
    requires Clean(current)
    ensures Items(Spelled(entries, current), current, data, base) == SpelledItems(Items(entries, current, data, base))
    decreases |entries|
  {
    hide Fields.Field, Join, Split, Resolve, IsAbsolute;
    if entries == [] {
    } else if entries[0].name == "" {
      ItemsOfSpelled(entries[1..], current, data, base);
      assert Spelled(entries, current)[1..] == Spelled(entries[1..], current);
    } else {
      var path := Resolve(current, entries[0].name);
      ResolveIsClean(current, entries[0].name);
      ItemsOfSpelled(entries[1..], path, data, base);
      if path != [] {
        AbsoluteName(current, path);
        SplitPlain("");
      }
      var spelled := Spelled(entries, current);
      assert spelled[1..] == Spelled(entries[1..], path);
      var item := ItemOf(entries[0], current, data, base);
      assert ItemOf(spelled[0], current, data, base) == SpelledItem(item);
      var rest := Items(entries[1..], path, data, base);
      assert SpelledItems([item] + rest) == [SpelledItem(item)] + SpelledItems(rest);
    }
  }

  lemma SpelledTouches(items: seq<Item>, q: seq<string>, i: nat)
    requires i < |items|
    ensures Touches(SpelledItems(items)[i], q) <==> Touches(items[i], q)
  {
  }

  lemma SpelledKnows(items: seq<Item>, q: seq<string>)
    ensures Known(SpelledItems(items), q) <==> Known(items, q)
  {
    var spelled := SpelledItems(items);
    if item :| item in items && Touches(item, q) {
      var i :| 0 <= i < |items| && items[i] == item;
      SpelledTouches(items, q, i);
      assert spelled[i] in spelled;
    }
    if item :| item in spelled && Touches(item, q) {
      var i :| 0 <= i < |spelled| && spelled[i] == item;
      SpelledTouches(items, q, i);
      assert items[i] in items;
    }
  }

  lemma {:induction false} SpelledDescriptions(items: seq<Item>, q: seq<string>)
    ensures DescriptionAt(SpelledItems(items), q) == DescriptionAt(items, q)
    decreases |items|
  {
    if items != [] {
      SpelledDescriptions(items[..|items| - 1], q);
      assert SpelledItems(items)[..|items| - 1] == SpelledItems(items[..|items| - 1]);
    }
  }

  /** A top-level name that a relative entry mentions first, and that never gets a value. */
  predicate Rootless(items: seq<Item>, q: seq<string>) {
    && |q| == 1 && Unreadable(items, q)
    && exists i: nat | i < |items| :: FirstTouch(items, q, i) && items[i].top.None?
  }

  lemma SpelledReadability(items: seq<Item>, q: seq<string>)
    ensures Unreadable(SpelledItems(items), q) <==> Unreadable(items, q)
    ensures forall i: nat :: LastReadable(SpelledItems(items), q, i) <==> LastReadable(items, q, i)
    ensures forall i: nat :: FirstTouch(SpelledItems(items), q, i) <==> FirstTouch(items, q, i)
  {
    var spelled := SpelledItems(items);
    forall i | 0 <= i < |items| ensures Touches(spelled[i], q) <==> Touches(items[i], q) {
      SpelledTouches(items, q, i);
    }
    if Unreadable(spelled, q) {
      forall item | item in items && item.path == q ensures item.value.None? {
        var i :| 0 <= i < |items| && items[i] == item;
        assert spelled[i] in spelled;
      }
    }
    if Unreadable(items, q) {
      forall item | item in spelled && item.path == q ensures item.value.None? {
        var i :| 0 <= i < |items| && spelled[i] == item;
        assert items[i] in items;
      }
    }
  }

  lemma FirstTouchIsUnique(items: seq<Item>, q: seq<string>, i: nat, j: nat)
    requires FirstTouch(items, q, i) && FirstTouch(items, q, j)
    ensures i == j
  {
  }

  /** Spelling the names out changes the kind of a rootless top-level node, and of no other. */
  lemma SpelledKinds(items: seq<Item>, q: seq<string>)
    requires Known(items, q)
    ensures KindAt(SpelledItems(items), q) == KindAt(items, q) <==> !Rootless(items, q)
  {
    hide KindAt, Touches;
    var spelled := SpelledItems(items);
    SpelledReadability(items, q);
    if !Unreadable(items, q) {
      var i := LastReadableExists(items, q);
      LastValueWins(items, q, i);
      LastValueWins(spelled, q, i);
    } else if q == [] {
      RootKeepsKind(items);
      RootKeepsKind(spelled);
    } else {
      var i := FirstTouchExists(items, q);
      FirstMentionDecides(items, q, i);
      FirstMentionDecides(spelled, q, i);
      if |q| == 1 && items[i].top.None? {
        MentionedAtTop(items[i], q);
        assert Rootless(items, q);
      } else {
        forall j: nat | FirstTouch(items, q, j) ensures i == j {
          FirstTouchIsUnique(items, q, i, j);
        }
      }
    }
  }

  lemma MentionedAtTop(item: Item, q: seq<string>)
    requires |q| == 1 && item.top.None? && Touches(item, q)
    ensures item.path != [] && q == [item.path[0]]
  {
  }

  /** Trees that look the same at every path are the same tree. */
  lemma {:induction false} SameTree(a: Node, b: Node)
    requires forall q :: SameAt(a, b, q)
    ensures a == b
  {
    assert SameAt(a, b, []);
    forall k ensures k in a.children <==> k in b.children {
      assert SameAt(a, b, [k]);
      ChildAt(a, k);
      ChildAt(b, k);
    }
    assert a.children.Keys == b.children.Keys;
    forall k | k in a.children ensures a.children[k] == b.children[k] {
      forall q ensures SameAt(a.children[k], b.children[k], q) {
        assert SameAt(a, b, [k] + q);
        assert ([k] + q)[1..] == q;
      }
      SameTree(a.children[k], b.children[k]);
    }
  }

  lemma SpelledIsLower(items: seq<Item>)
    ensures LowerPaths(SpelledItems(items)) <==> LowerPaths(items)
  {
    hide AllLower;
    var spelled := SpelledItems(items);
    forall i | 0 <= i < |items| ensures spelled[i].path == items[i].path && items[i] in items && spelled[i] in spelled {
    }
    if LowerPaths(spelled) {
      forall item | item in items ensures AllLower(item.path) {
        var i :| 0 <= i < |items| && items[i] == item;
        assert spelled[i].path == item.path;
      }
    }
    if LowerPaths(items) {
      forall item | item in spelled ensures AllLower(item.path) {
        var i :| 0 <= i < |items| && spelled[i] == item;
        assert items[i].path == item.path;
      }
    }
  }

  /** A spelled-out name is in lower case, so it forgets nothing. */
  lemma SpelledResets(item: Item, q: seq<string>)
    requires AllLower(item.path)
    ensures Resets(SpelledItem(item), q) <==> Resets(item, q)
    ensures Lowered(SpelledItem(item)) == SpelledItem(Lowered(item))
  {
    hide Lower;
    if item.path != [] {
      assert item.path[0] in item.path;
    }
  }

  lemma {:induction false} SinceSpelled(items: seq<Item>, q: seq<string>)
    requires LowerPaths(items)
    ensures Since(SpelledItems(items), q) == SpelledItems(Since(items, q))
    decreases |items|
  {
    hide Resets, Lowered, SpelledItem, AllLower;
    if items != [] {
      var before, last := items[..|items| - 1], items[|items| - 1];
      SnocDecomposes(items);
      assert last in items;
      SinceSpelled(before, q);
      SpelledResets(last, q);
      assert SpelledItems(items)[..|items| - 1] == SpelledItems(before);
      var kept := if Resets(last, q) then [] else Since(before, q);
      assert Since(items, q) == kept + [Lowered(last)];
      assert SpelledItems(kept + [Lowered(last)]) == SpelledItems(kept) + [SpelledItem(Lowered(last))];
    }
  }

  lemma SpelledAt(a: Node, b: Node, items: seq<Item>, q: seq<string>)
    requires Holds(a, SpelledItems(items), q) && Holds(b, items, q)
    ensures SameAt(a, b, q) <==> !Rootless(items, q)
  {
    hide KindAt, DescriptionAt, At, Rootless, SpelledItems;
    SpelledKnows(items, q);
    SpelledDescriptions(items, q);
    if Known(items, q) {
      SpelledKinds(items, q);
    } else {
      RootlessIsKnown(items, q);
    }
  }

  /**
   Relative names are shorthand for the paths they stand for: spelling them out gives
   the same tree exactly when decoding panics anyway, or every top-level name mentioned
   first by a relative entry, among those that still matter there, gets a value in the end.
   */
  lemma RelativeNamesAreShorthand(entries: seq<Entry>, data: seq<byte>, base: nat)
    ensures Decode(Spelled(entries, []), data, base) == Decode(entries, data, base)
       <==> || Decode(entries, data, base).None?
            || forall q :: !Rootless(Since(Items(entries, [], data, base), q), q)
  {
    hide Build, KindAt, DescriptionAt, At, Items, Rootless, SpelledItems, Holds, SameAt, LowerPaths, Resets, Lowered;
    var items := Items(entries, [], data, base);
    var spelled := SpelledItems(items);
    ItemsOfSpelled(entries, [], data, base);
    SpelledIsLower(items);
    DecodePanics(items);
    DecodePanics(spelled);
    if LowerPaths(items) {
      ResettingTree(items);
      ResettingTree(spelled);
      var a, b := Build(spelled).value, Build(items).value;
      forall q ensures SameAt(a, b, q) <==> !Rootless(Since(items, q), q) {
        SinceSpelled(items, q);
        SpelledAt(a, b, Since(items, q), q);
      }
      if forall q :: !Rootless(Since(items, q), q) {
        SameTree(a, b);
      }
      if a == b {
        forall q ensures !Rootless(Since(items, q), q) {
          SameItself(a, q);
        }
      } else {
        assert exists q :: Rootless(Since(items, q), q);
      }
    }
  }

  lemma SameItself(a: Node, q: seq<string>)
    ensures SameAt(a, a, q)
  {
  }

  lemma RootlessIsKnown(items: seq<Item>, q: seq<string>)
    ensures Rootless(items, q) ==> Known(items, q)
  {
    hide Touches;
  }

  /** In particular well-rooted layouts may always be spelled out. */
  lemma WellRootedIsShorthand(entries: seq<Entry>, data: seq<byte>, base: nat)
    requires WellRooted(Items(entries, [], data, base))
    ensures Decode(Spelled(entries, []), data, base) == Decode(entries, data, base)
  {
    hide Items, Since, Rootless, WellRooted, Build;
    var items := Items(entries, [], data, base);
    RelativeNamesAreShorthand(entries, data, base);
    DecodePanics(items);
    if Decode(entries, data, base).Some? {
      WellRootedIsLowercase(items);
      forall q ensures !Rootless(Since(items, q), q) {
        SinceTheStart(items, q);
        WellRootedIsNotRootless(items, q);
      }
    }
  }

  lemma WellRootedIsNotRootless(items: seq<Item>, q: seq<string>)
    requires WellRooted(items)
    ensures !Rootless(items, q)
  {
    if |q| == 1 {
      forall i: nat | i < |items| && FirstTouch(items, q, i) ensures items[i].top.Some? {
        AbsoluteComesFirst(items, q, i);
      }
    }
  }

  lemma RelativeSplits()
    ensures Split("..foo.bar") == ["", "", "foo", "bar"]
  {
    hide Split;
    SplitPlain("bar");
    SplitAtDot("foo", "bar");
    assert "foo" + "." + "bar" == "foo.bar";
    SplitAtDot("", "foo.bar");
    assert "" + "." + "foo.bar" == ".foo.bar";
    SplitAtDot("", ".foo.bar");
    assert "" + "." + ".foo.bar" == "..foo.bar";
  }

  lemma RelativeResolves()
    ensures Resolve([], "..foo.bar") == ["foo", "bar"] && !IsAbsolute("..foo.bar")
  {
    hide Split;
    RelativeSplits();
    assert ["", "", "foo", "bar"][1..] == ["", "foo", "bar"];
    assert ["", "foo", "bar"][1..] == ["foo", "bar"];
    WalkDown([], ["foo", "bar"]);
  }

  lemma RelativeItems(data: seq<byte>)
    ensures Items([Entry("..foo.bar", 0, 65, "")], [], data, 0) == [Item(None, ["foo", "bar"], "", 0, 65, None)]
  {
    hide Split, Resolve, IsAbsolute;
    RelativeResolves();
    var entry := Entry("..foo.bar", 0, 65, "");
    assert ItemOf(entry, [], data, 0) == Item(None, ["foo", "bar"], "", 0, 65, None);
    assert [entry][1..] == [];
  }

  lemma FooIsLower()
    ensures AllLower(["foo", "bar"])
  {
    assert "foo"[1..] == "oo" && "oo"[1..] == "o" && "o"[1..] == "";
    assert "bar"[1..] == "ar" && "ar"[1..] == "r" && "r"[1..] == "";
  }

  /** A layout that starts with a relative name: spelled out, its top-level section becomes a record. */
  lemma RelativeFirstDiffers(data: seq<byte>)
    ensures var entries := [Entry("..foo.bar", 0, 65, "")];
            Decode(Spelled(entries, []), data, 0) != Decode(entries, data, 0)
  {
    hide Items, Build, Spelled, IsLower, Since;
    var entries := [Entry("..foo.bar", 0, 65, "")];
    RelativeItems(data);
    FooIsLower();
    var items := Items(entries, [], data, 0);
    assert Lowercase(items);
    DecodedTree(items);
    SinceTheStart(items, ["foo"]);
    assert FirstTouch(items, ["foo"], 0);
    assert Rootless(items, ["foo"]);
    RelativeNamesAreShorthand(entries, data, 0);
  }
}
