/** The cache of collateral items and its two getters (lib/src/collateral.rs). */
module Collateral {
  import opened Results
  import opened Bytes

  /** A product, and the security level of its collateral. */
  datatype Pvss = Pvss(product: string, variant: string, stepping: string, security: string)

  datatype Index = Index(pvss: Pvss, path: seq<string>)

  datatype Failure = MissingCollateral(index: Index) | TreeFailure(code: int)

  datatype Answer = Found(item: seq<byte>) | Failed(failure: Failure)

  /** The collateral tree answers the same question the same way every time. */
  type Tree = Index -> Answer

  const SECURITY_LEVELS: seq<string> := ["red", "white", "green", "all"]

  function AtLevel(index: Index, security: string): Index {
    index.(pvss := index.pvss.(security := security))
  }

  /** The first of the levels for which the tree has the item. */
  function Search(tree: Tree, index: Index, levels: seq<string>): Answer {
    if levels == [] then Failed(MissingCollateral(index))
    else if tree(AtLevel(index, levels[0])).Found? then tree(AtLevel(index, levels[0]))
    else Search(tree, index, levels[1..])
  }

  /** A search answers with the item of some level, when no level before it has one. */
  lemma {:induction false} SearchIsFirst(tree: Tree, index: Index, levels: seq<string>, i: nat)
    requires i < |levels| && tree(AtLevel(index, levels[i])).Found?
    requires forall j | 0 <= j < i :: tree(AtLevel(index, levels[j])).Failed?
    ensures Search(tree, index, levels) == tree(AtLevel(index, levels[i]))
    decreases i
  {
    if i > 0 {
      assert levels[1..][i - 1] == levels[i];
      assert tree(AtLevel(index, levels[0])).Failed?;
      forall j | 0 <= j < i - 1 ensures tree(AtLevel(index, levels[1..][j])).Failed? {
        assert levels[1..][j] == levels[j + 1];
      }
      SearchIsFirst(tree, index, levels[1..], i - 1);
    }
  }

  /** It fails, naming the item that was asked for, exactly when every level fails. */
  lemma {:induction false} SearchFails(tree: Tree, index: Index, levels: seq<string>)
    ensures Search(tree, index, levels).Failed? <==> forall level <- levels :: tree(AtLevel(index, level)).Failed?
    ensures Search(tree, index, levels).Failed? ==> Search(tree, index, levels) == Failed(MissingCollateral(index))
    decreases |levels|
  {
    if levels != [] {
      SearchFails(tree, index, levels[1..]);
      assert levels == [levels[0]] + levels[1..];
    }
  }

  // Calls

  datatype Call = WithPvss(index: Index) | WithPvs(index: Index)

  /** What the call answers when nothing is cached. */
  function Uncached(tree: Tree, call: Call): Answer {
    match call
    case WithPvss(index) => tree(index)
    case WithPvs(index) => Search(tree, index, SECURITY_LEVELS)
  }

  /** Red comes before white, white before green, green before all; only the security level is replaced. */
  lemma LevelsInOrder(tree: Tree, product: string, variant: string, stepping: string, security: string, path: seq<string>)
    ensures var at := (level: string) => tree(Index(Pvss(product, variant, stepping, level), path));
            var index := Index(Pvss(product, variant, stepping, security), path);
            Uncached(tree, WithPvs(index))
            == if at("red").Found? then at("red")
               else if at("white").Found? then at("white")
               else if at("green").Found? then at("green")
               else if at("all").Found? then at("all")
               else Failed(MissingCollateral(index))
  {
    var index := Index(Pvss(product, variant, stepping, security), path);
    assert SECURITY_LEVELS[1..] == ["white", "green", "all"];
    assert ["white", "green", "all"][1..] == ["green", "all"];
    assert ["green", "all"][1..] == ["all"];
    assert ["all"][1..] == [];
    assert Search(tree, index, []) == Failed(MissingCollateral(index));
    assert Search(tree, index, ["all"])
        == if tree(AtLevel(index, "all")).Found? then tree(AtLevel(index, "all")) else Search(tree, index, []);
    assert Search(tree, index, ["green", "all"])
        == if tree(AtLevel(index, "green")).Found? then tree(AtLevel(index, "green")) else Search(tree, index, ["all"]);
    assert Search(tree, index, ["white", "green", "all"])
        == if tree(AtLevel(index, "white")).Found? then tree(AtLevel(index, "white"))
           else Search(tree, index, ["green", "all"]);
  }

  function Cached(tree: Tree, items: map<Index, seq<byte>>, call: Call): Answer {
    if call.index in items then Found(items[call.index]) else Uncached(tree, call)
  }

  /** The cache after the call: an item found is kept under the index that was asked for. */
  function After(tree: Tree, items: map<Index, seq<byte>>, call: Call): map<Index, seq<byte>> {
    var answer := Cached(tree, items, call);
    if answer.Found? then items[call.index := answer.item] else items
  }

  class CollateralManager {
    const tree: Tree
    var items: map<Index, seq<byte>>

    constructor (tree: Tree)
      ensures this.tree == tree && items == map[]
    {
      this.tree := tree;
      this.items := map[];
    }

    method GetItemWithPvss(pvss: Pvss, path: seq<string>) returns (r: Answer)
      modifies this
      ensures r == Cached(tree, old(items), WithPvss(Index(pvss, path)))
      ensures items == After(tree, old(items), WithPvss(Index(pvss, path)))
    {
      var index := Index(pvss, path);
      if index !in items {
        var answer := tree(index);
        if answer.Failed? {
          return answer;
        }
        items := items[index := answer.item];
      }
      return Found(items[index]);
    }

    method GetItemWithPvs(pvss: Pvss, path: seq<string>) returns (r: Answer)
      modifies this
      ensures r == Cached(tree, old(items), WithPvs(Index(pvss, path)))
      ensures items == After(tree, old(items), WithPvs(Index(pvss, path)))
    {
      var index := Index(pvss, path);
      if index !in items {
        var missing := FetchItem(index);
        if missing.Some? {
          return Failed(missing.value);
        }
      }
      return Found(items[index]);
    }

    /** Caches the item of the highest security level that has one. */
    method FetchItem(index: Index) returns (missing: Option<Failure>)
      modifies this
      ensures var answer := Search(tree, index, SECURITY_LEVELS);
              if answer.Found? then missing.None? && items == old(items)[index := answer.item]
              else missing == Some(answer.failure) && items == old(items)
    {
      for i := 0 to |SECURITY_LEVELS|
        invariant items == old(items)
        invariant Search(tree, index, SECURITY_LEVELS) == Search(tree, index, SECURITY_LEVELS[i..])
      {
        assert SECURITY_LEVELS[i..][1..] == SECURITY_LEVELS[i + 1..];
        var answer := tree(AtLevel(index, SECURITY_LEVELS[i]));
        if answer.Found? {
          items := items[index := answer.item];
          return None;
        }
      }
      return Some(MissingCollateral(index));
    }
  }

  // Runs of calls

  function CacheAfter(tree: Tree, calls: seq<Call>): map<Index, seq<byte>> {
    if calls == [] then map[]
    else After(tree, CacheAfter(tree, calls[..|calls| - 1]), calls[|calls| - 1])
  }

  /** The answer of the k-th call of a run that starts with an empty cache. */
  function AnswerAt(tree: Tree, calls: seq<Call>, k: nat): Answer
    requires k < |calls|
  {
    Cached(tree, CacheAfter(tree, calls[..k]), calls[k])
  }

  /** The i-th call is the first that found an item under the index. */
  predicate FirstFound(tree: Tree, calls: seq<Call>, index: Index, i: nat) {
    && i < |calls| && calls[i].index == index && Uncached(tree, calls[i]).Found?
    && forall j | 0 <= j < i :: calls[j].index == index ==> Uncached(tree, calls[j]).Failed?
  }

  predicate NeverFound(tree: Tree, calls: seq<Call>, index: Index) {
    forall call <- calls :: call.index == index ==> Uncached(tree, call).Failed?
  }

  /** The cache holds what the first successful call under the index found, and nothing else. */
  lemma {:induction false} CacheIsFirstFound(tree: Tree, calls: seq<Call>, index: Index)
    ensures index in CacheAfter(tree, calls) <==> !NeverFound(tree, calls, index)
    ensures forall i: nat | FirstFound(tree, calls, index, i) ::
              index in CacheAfter(tree, calls) && Found(CacheAfter(tree, calls)[index]) == Uncached(tree, calls[i])
    decreases |calls|
  {
    hide Uncached;
    if calls != [] {
      var before, last := calls[..|calls| - 1], calls[|calls| - 1];
      CacheIsFirstFound(tree, before, index);
      assert calls == before + [last];
      assert NeverFound(tree, calls, index) <==>
             NeverFound(tree, before, index) && (last.index == index ==> Uncached(tree, last).Failed?);
      forall i: nat | FirstFound(tree, calls, index, i)
        ensures index in CacheAfter(tree, calls) && Found(CacheAfter(tree, calls)[index]) == Uncached(tree, calls[i])
      {
        if i < |before| {
          assert before[i] == calls[i];
          assert FirstFound(tree, before, index, i);
        } else {
          NoneFoundBefore(tree, before, last, index);
        }
      }
    }
  }

  lemma NoneFoundBefore(tree: Tree, before: seq<Call>, last: Call, index: Index)
    requires FirstFound(tree, before + [last], index, |before|)
    ensures NeverFound(tree, before, index)
  {
    forall call | call in before && call.index == index ensures Uncached(tree, call).Failed? {
      var j :| 0 <= j < |before| && before[j] == call;
      assert (before + [last])[j] == call;
    }
  }

  lemma {:induction false} FirstFoundExists(tree: Tree, calls: seq<Call>, index: Index) returns (i: nat)
    requires !NeverFound(tree, calls, index)
    ensures FirstFound(tree, calls, index, i)
    decreases |calls|
  {
    hide Uncached;
    var before, last := calls[..|calls| - 1], calls[|calls| - 1];
    assert calls == before + [last];
    if NeverFound(tree, before, index) {
      i := |calls| - 1;
      forall j | 0 <= j < i && calls[j].index == index ensures Uncached(tree, calls[j]).Failed? {
        assert calls[j] in before;
      }
    } else {
      i := FirstFoundExists(tree, before, index);
    }
  }

  /**
   In every run, mixed or not, a call answers what the first successful call with the
   same index answered when it was uncached; before any success, its own uncached answer.
   */
  lemma AnswersAreFirstFound(tree: Tree, calls: seq<Call>, k: nat)
    requires k < |calls|
    ensures NeverFound(tree, calls[..k], calls[k].index) ==> AnswerAt(tree, calls, k) == Uncached(tree, calls[k])
    ensures forall i: nat | FirstFound(tree, calls[..k], calls[k].index, i) ::
              i < k && AnswerAt(tree, calls, k) == Uncached(tree, calls[i])
  {
    CacheIsFirstFound(tree, calls[..k], calls[k].index);
  }

  predicate OneGetter(calls: seq<Call>) {
    (forall call <- calls :: call.WithPvs?) || (forall call <- calls :: call.WithPvss?)
  }

  /** In a run made with one getter only, every answer is the uncached one. */
  lemma OneGetterAgrees(tree: Tree, calls: seq<Call>, k: nat)
    requires k < |calls| && OneGetter(calls)
    ensures AnswerAt(tree, calls, k) == Uncached(tree, calls[k])
  {
    hide Uncached, AnswerAt;
    AnswersAreFirstFound(tree, calls, k);
    if !NeverFound(tree, calls[..k], calls[k].index) {
      var i := FirstFoundExists(tree, calls[..k], calls[k].index);
      assert calls[i] in calls && calls[k] in calls;
      assert calls[i] == calls[k];
    }
  }

  /** The two getters find the same item under the index, or neither finds one. */
  predicate GettersAgree(tree: Tree, index: Index) {
    var direct, searched := Uncached(tree, WithPvss(index)), Uncached(tree, WithPvs(index));
    direct == searched || (direct.Failed? && searched.Failed?)
  }

  /**
   The two getters share one key space: runs that mix them agree with the uncached
   answers, all of them, exactly when the getters agree on every index.
   */
  lemma MixedRunsAgree(tree: Tree)
    ensures (forall calls: seq<Call>, k: nat | k < |calls| :: AnswerAt(tree, calls, k) == Uncached(tree, calls[k]))
       <==> forall index :: GettersAgree(tree, index)
  {
    hide AnswerAt, Uncached;
    if forall index :: GettersAgree(tree, index) {
      forall calls: seq<Call>, k: nat | k < |calls| ensures AnswerAt(tree, calls, k) == Uncached(tree, calls[k]) {
        AnswersAreFirstFound(tree, calls, k);
        if !NeverFound(tree, calls[..k], calls[k].index) {
          var i := FirstFoundExists(tree, calls[..k], calls[k].index);
          assert GettersAgree(tree, calls[k].index);
          SameIndex(calls[i], calls[k]);
        }
      }
    }
    if index :| !GettersAgree(tree, index) {
      var first := if Uncached(tree, WithPvss(index)).Found? then WithPvss(index) else WithPvs(index);
      var second := if first.WithPvss? then WithPvs(index) else WithPvss(index);
      SecondCallDiffers(tree, first, second);
      assert AnswerAt(tree, [first, second], 1) != Uncached(tree, [first, second][1]);
    }
  }

  lemma SameIndex(a: Call, b: Call)
    requires a.index == b.index
    ensures a == b || {a, b} == {WithPvss(a.index), WithPvs(a.index)}
  {
  }

  lemma SecondCallDiffers(tree: Tree, first: Call, second: Call)
    requires first.index == second.index && Uncached(tree, first).Found?
    requires Uncached(tree, second) != Uncached(tree, first)
    ensures AnswerAt(tree, [first, second], 1) != Uncached(tree, second)
  {
    hide Uncached;
    assert [first, second][..1] == [first];
    assert FirstFound(tree, [first], first.index, 0);
    AnswersAreFirstFound(tree, [first, second], 1);
  }

  /** A tree on which they do not agree: the red item hides the one asked for. */
  lemma RedHidesAll(path: seq<string>)
    ensures var index := Index(Pvss("all", "all", "all", "all"), path);
            var tree: Tree := i => if i == AtLevel(index, "red") then Found([1]) else Found([2]);
            !GettersAgree(tree, index)
  {
    var index := Index(Pvss("all", "all", "all", "all"), path);
    var tree: Tree := i => if i == AtLevel(index, "red") then Found([1]) else Found([2]);
    SearchIsFirst(tree, index, SECURITY_LEVELS, 0);
    assert AtLevel(index, "red").pvss.security == "red";
    assert "red"[0] != "all"[0];
  }
}
