/** The search for time-frequency flags at the end of tf_analysis(): two states, one forward and one backward pass. */
module Viterbi {
  import opened Arith
  import opened SideInfo

  /** One row pair of the resolution table against the bands' wishes; `lambda` is the price of a switch. */
  datatype Search = Search(metric: seq<int>, importance: seq<int>, lambda: int, lm: nat, transient: bool, select: int) {
    predicate Usable() {
      |metric| == |importance| >= 1 && lm < 4 && Flag(select)
    }

    /** importance[i] * abs(metric[i] - 2 * table entry) */
    function Dist(i: nat, flag: int): (r: int)
      requires Usable() && i < |metric| && Flag(flag)
    {
      importance[i] * Abs(metric[i] - 2 * TfEntry(lm, transient, select, flag))
    }

    /** A band costs nothing exactly when it does not matter or its metric is twice the flag's resolution. */
    lemma DistExactly(i: nat, flag: int)
      requires Usable() && i < |metric| && Flag(flag)
      ensures Dist(i, flag) == 0 <==> importance[i] == 0 || metric[i] == 2 * TfEntry(lm, transient, select, flag)
    {
      hide TfEntry;
    }

    /** The flag whose resolution is nearer to the metric costs less, by the importance per unit of distance. */
    lemma DistGrows(i: nat, flag: int, other: int)
      requires Usable() && i < |metric| && Flag(flag) && Flag(other) && importance[i] >= 0
      ensures var d, e := Abs(metric[i] - 2 * TfEntry(lm, transient, select, flag)),
                          Abs(metric[i] - 2 * TfEntry(lm, transient, select, other));
              && (d <= e ==> Dist(i, flag) <= Dist(i, other))
              && (d < e && importance[i] > 0 ==> Dist(i, flag) < Dist(i, other))
              && Dist(i, other) - Dist(i, flag) == importance[i] * (e - d)
    {
      hide TfEntry;
      var d: int := Abs(metric[i] - 2 * TfEntry(lm, transient, select, flag));
      var e: int := Abs(metric[i] - 2 * TfEntry(lm, transient, select, other));
      Distribute(importance[i], e, d);
      if d <= e {
        MulMono(0, e - d, importance[i]);
      }
      if d < e {
        MulMono(1, e - d, importance[i]);
      }
    }

    function Switch(from: int, to: int): (r: int) {
      if from != to then lambda else 0
    }

    /** Flag 0 is the natural start of a frame without transient. */
    function Start(flag: int): (r: int)
      requires Usable() && Flag(flag)
    {
      Dist(0, flag) + if flag == 1 && !transient then lambda else 0
    }

    predicate Path(path: seq<int>)
      requires Usable()
    {
      |path| == |metric| && Flags(path)
    }

    /** What bands i, i+1, ... of a path cost. */
    function Rest(path: seq<int>, i: nat): (r: int)
      requires Usable() && Path(path) && 1 <= i <= |path|
      decreases |path| - i
    {
      if i == |path| then 0 else Switch(path[i - 1], path[i]) + Dist(i, path[i]) + Rest(path, i + 1)
    }

    function Total(path: seq<int>): (r: int)
      requires Usable() && Path(path)
    {
      Start(path[0]) + Rest(path, 1)
    }

    /** The distances of bands i, i+1, ... of a path. */
    function Distances(path: seq<int>, i: nat): (r: int)
      requires Usable() && Path(path) && i <= |path|
      decreases |path| - i
    {
      if i == |path| then 0 else Dist(i, path[i]) + Distances(path, i + 1)
    }

    /** How often the flag changes, starting from `from`. */
    function Changes(from: int, path: seq<int>): (r: nat)
      decreases |path|
    {
      if path == [] then 0 else (if path[0] != from then 1 else 0) + Changes(path[0], path[1..])
    }

    /**
     * A path costs its distances and lambda for each change of flag. A frame without transient starts from flag
     * 0; a transient starts from either.
     */
    lemma TotalCost(path: seq<int>)
      requires Usable() && Path(path)
      ensures Total(path) == Distances(path, 0) + lambda * Changes(if transient then path[0] else 0, path)
    {
      hide Dist;
      RestCost(path, 1);
      if !transient && path[0] != 0 {
        Distribute(lambda, Changes(path[0], path[1..]), 1);
      }
    }

    lemma {:induction false} RestCost(path: seq<int>, i: nat)
      requires Usable() && Path(path) && 1 <= i <= |path|
      ensures Rest(path, i) == Distances(path, i) + lambda * Changes(path[i - 1], path[i..])
      decreases |path| - i
    {
      hide Dist;
      if i < |path| {
        RestCost(path, i + 1);
        assert path[i..][1..] == path[i + 1..];
        Distribute(lambda, Changes(path[i], path[i + 1..]), 1);
      }
    }

    /** The cost the forward pass reaches for flag `flag` of band i. */
    function Best(i: nat, flag: int): (r: int)
      requires Usable() && i < |metric| && Flag(flag)
    {
      if i == 0 then Start(flag)
      else Min(Best(i - 1, 0) + Switch(0, flag), Best(i - 1, 1) + Switch(1, flag)) + Dist(i, flag)
    }

    function Least(): (r: int)
      requires Usable()
    {
      Min(Best(|metric| - 1, 0), Best(|metric| - 1, 1))
    }

    /** No path costs less than the forward pass says. */
    lemma {:induction false} BestIsLower(path: seq<int>, i: nat)
      requires Usable() && Path(path) && i < |path|
      ensures Best(i, path[i]) + Rest(path, i + 1) <= Total(path)
    {
      hide TfEntry, Dist;
      if i > 0 {
        BestIsLower(path, i - 1);
      }
    }

    lemma LeastIsLower(path: seq<int>)
      requires Usable() && Path(path)
      ensures Least() <= Total(path)
    {
      hide TfEntry, Dist, Best;
      BestIsLower(path, |path| - 1);
    }

    /** A predecessor the forward pass may record for flag `flag` of band i. */
    predicate From(i: nat, flag: int, from: int)
      requires Usable() && 1 <= i < |metric| && Flag(flag)
    {
      Flag(from) && Best(i, flag) == Best(i - 1, from) + Switch(from, flag) + Dist(i, flag)
    }

    /** Every band after i follows its recorded predecessors, and the last flag is the cheaper one. */
    predicate Traced(path: seq<int>, i: nat)
      requires Usable() && Path(path) && i < |path|
    {
      && Best(|path| - 1, path[|path| - 1]) == Least()
      && forall k :: i < k < |path| ==> From(k, path[k], path[k - 1])
    }

    /** Walking back along recorded predecessors costs exactly what the forward pass reached. */
    lemma {:induction false} TracedCost(path: seq<int>, i: nat)
      requires Usable() && Path(path) && i < |path| && Traced(path, i)
      ensures Best(i, path[i]) + Rest(path, i + 1) == Least()
      decreases |path| - i
    {
      hide TfEntry, Dist, Best;
      if i + 1 < |path| {
        TracedCost(path, i + 1);
        assert From(i + 1, path[i + 1], path[i]);
      }
    }

    lemma TracedIsBest(path: seq<int>)
      requires Usable() && Path(path) && Traced(path, 0)
      ensures Total(path) == Least()
    {
      hide TfEntry, Dist;
      TracedCost(path, 0);
    }
  }

  /** The first loop of the search: the least cost for one tf_select, without remembering a path. */
  method SelCost(s: Search) returns (cost: int)
    requires s.Usable()
    ensures cost == s.Least()
  {
    hide TfEntry;
    var cost0 := s.Dist(0, 0);
    var cost1 := s.Dist(0, 1) + if s.transient then 0 else s.lambda;
    var i := 1;
    while i < |s.metric|
      invariant 1 <= i <= |s.metric| && cost0 == s.Best(i - 1, 0) && cost1 == s.Best(i - 1, 1)
    {
      var curr0 := Min(cost0, cost1 + s.lambda);
      var curr1 := Min(cost0 + s.lambda, cost1);
      cost0 := curr0 + s.Dist(i, 0);
      cost1 := curr1 + s.Dist(i, 1);
      i := i + 1;
    }
    cost := Min(cost0, cost1);
  }

  /** The forward pass: the cheaper predecessor of each flag of each band, and the cheaper last flag. */
  method Forward(s: Search, path0: array<int>, path1: array<int>) returns (last: int)
    requires s.Usable() && path0 != path1 && path0.Length == path1.Length == |s.metric|
    modifies path0, path1
    ensures Flag(last) && s.Best(|s.metric| - 1, last) == s.Least()
    ensures forall i :: 1 <= i < |s.metric| ==> s.From(i, 0, path0[i]) && s.From(i, 1, path1[i])
  {
    hide TfEntry, Search.Dist;
    var cost0 := s.Dist(0, 0);
    var cost1 := s.Dist(0, 1) + if s.transient then 0 else s.lambda;
    var i := 1;
    while i < |s.metric|
      invariant 1 <= i <= |s.metric| && cost0 == s.Best(i - 1, 0) && cost1 == s.Best(i - 1, 1)
      invariant forall k :: 1 <= k < i ==> s.From(k, 0, path0[k]) && s.From(k, 1, path1[k])
    {
      var curr0, curr1;
      var from0, from1 := cost0, cost1 + s.lambda;
      if from0 < from1 {
        curr0 := from0;
        path0[i] := 0;
      } else {
        curr0 := from1;
        path0[i] := 1;
      }
      from0, from1 := cost0 + s.lambda, cost1;
      if from0 < from1 {
        curr1 := from0;
        path1[i] := 0;
      } else {
        curr1 := from1;
        path1[i] := 1;
      }
      cost0 := curr0 + s.Dist(i, 0);
      cost1 := curr1 + s.Dist(i, 1);
      i := i + 1;
    }
    last := if cost0 < cost1 then 0 else 1;
  }

  /** The backward pass. */
  method Backward(s: Search, path0: array<int>, path1: array<int>, last: int, tfRes: array<int>)
    requires s.Usable() && path0.Length == path1.Length == |s.metric| <= tfRes.Length
    requires tfRes != path0 && tfRes != path1
    requires Flag(last) && s.Best(|s.metric| - 1, last) == s.Least()
    requires forall i :: 1 <= i < |s.metric| ==> s.From(i, 0, path0[i]) && s.From(i, 1, path1[i])
    modifies tfRes
    ensures s.Path(tfRes[..|s.metric|]) && s.Total(tfRes[..|s.metric|]) == s.Least()
    ensures tfRes[|s.metric|..] == old(tfRes[|s.metric|..])
  {
    hide TfEntry, Search.Dist, Search.Best, Search.Rest, Search.Total, Search.From;
    FromFlags(s, path0, path1);
    var len := |s.metric|;
    tfRes[len - 1] := last;
    var i := len - 2;
    while i >= 0
      invariant -1 <= i < len - 1
      invariant forall k :: i < k < len ==> Flag(tfRes[k])
      invariant tfRes[len - 1] == last
      invariant forall k :: i + 1 < k < len ==> s.From(k, tfRes[k], tfRes[k - 1])
      invariant tfRes[len..] == old(tfRes[len..])
    {
      if tfRes[i + 1] == 1 {
        tfRes[i] := path1[i + 1];
      } else {
        tfRes[i] := path0[i + 1];
      }
      i := i - 1;
    }
    s.TracedIsBest(tfRes[..len]);
  }

  lemma FromFlags(s: Search, path0: array<int>, path1: array<int>)
    requires s.Usable() && path0.Length == path1.Length == |s.metric|
    requires forall i :: 1 <= i < |s.metric| ==> s.From(i, 0, path0[i]) && s.From(i, 1, path1[i])
    ensures forall i :: 1 <= i < |s.metric| ==> Flag(path0[i]) && Flag(path1[i])
  {
    forall i | 1 <= i < |s.metric| ensures Flag(path0[i]) && Flag(path1[i]) {
      assert s.From(i, 0, path0[i]) && s.From(i, 1, path1[i]);
    }
  }

  /**
   * The search of tf_analysis(). The flags it leaves in tf_res cost least among all flag sequences for the
   * tf_select it returns, and for a transient among all sequences for either tf_select.
   */
  method TfSearch(s0: Search, tfRes: array<int>) returns (tfSelect: int, selcost: seq<int>)
    requires s0.Usable() && |s0.metric| <= tfRes.Length
    modifies tfRes
    ensures Flag(tfSelect) && |selcost| == 2
    ensures tfSelect == 1 <==> s0.transient && selcost[1] < selcost[0]
    ensures var s, n := s0.(select := tfSelect), |s0.metric|;
            && s.Path(tfRes[..n]) && s.Total(tfRes[..n]) == selcost[tfSelect]
            && forall path :: s.Path(path) ==> s.Total(tfRes[..n]) <= s.Total(path)
    ensures s0.transient ==>
              forall select, path :: Flag(select) && s0.(select := select).Path(path) ==>
                selcost[tfSelect] <= s0.(select := select).Total(path)
    ensures tfRes[|s0.metric|..] == old(tfRes[|s0.metric|..])
  {
    hide TfEntry, Search.Total, Search.Least, Search.Best;
    selcost := [];
    var sel := 0;
    while sel < 2
      invariant 0 <= sel <= 2 && |selcost| == sel && tfRes[..] == old(tfRes[..])
      invariant forall k :: 0 <= k < sel ==> selcost[k] == s0.(select := k).Least()
    {
      var cost := SelCost(s0.(select := sel));
      selcost := selcost + [cost];
      sel := sel + 1;
    }
    tfSelect := if selcost[1] < selcost[0] && s0.transient then 1 else 0;
    var s := s0.(select := tfSelect);
    var path0, path1 := new int[|s.metric|], new int[|s.metric|];
    var last := Forward(s, path0, path1);
    Backward(s, path0, path1, last, tfRes);
    forall path | s.Path(path) ensures selcost[tfSelect] <= s.Total(path) {
      s.LeastIsLower(path);
    }
    forall select, path | Flag(select) && s0.transient && s0.(select := select).Path(path)
      ensures selcost[tfSelect] <= selcost[select] <= s0.(select := select).Total(path)
    {
      s0.(select := select).LeastIsLower(path);
    }
  }
}
