/**
 What the network builders share: routers, the links between them and to the controllers, paths
 over links, and the attachment of the controllers to the routers.
 */
module Network {
  import opened Options
  import opened Arithmetic

  // Routers are given by their ids; a controller may be one that only does DMA.
  datatype Controller = Controller(id: nat, dma: bool)

  datatype IntLink = IntLink(id: nat, a: nat, b: nat, weight: nat, latency: nat)

  datatype ExtLink = ExtLink(id: nat, node: Controller, router: nat)

  // ----- Paths over links, which can be used in both directions -----

  datatype Hop = Hop(link: IntLink, forward: bool)

  function From(h: Hop): nat {
    if h.forward then h.link.a else h.link.b
  }

  function To(h: Hop): nat {
    if h.forward then h.link.b else h.link.a
  }

  ghost predicate IsPath(links: seq<IntLink>, path: seq<Hop>, u: nat, v: nat) {
    if path == [] then u == v
    else path[0].link in links && From(path[0]) == u && IsPath(links, path[1..], To(path[0]), v)
  }

  ghost function Cost(path: seq<Hop>): nat {
    if path == [] then 0 else path[0].link.weight + Cost(path[1..])
  }

  ghost predicate IsCheapest(links: seq<IntLink>, u: nat, v: nat, cost: nat) {
    (exists path :: IsPath(links, path, u, v) && Cost(path) == cost) &&
    forall path :: IsPath(links, path, u, v) ==> cost <= Cost(path)
  }

  // ----- Attaching the controllers -----

  // How many controllers divide evenly among n routers.
  function Spread(nodes: seq<Controller>, n: nat): (k: nat)
    requires n > 0
    ensures k <= |nodes| && k == |nodes| / n * n && k + |nodes| % n == |nodes|
  {
    |nodes| - |nodes| % n
  }

  // All but the last |nodes| % n controllers go round the routers; the rest go to router 0.
  function RouterOf(nodes: seq<Controller>, n: nat, k: nat): nat
    requires n > 0
  {
    if k < Spread(nodes, n) then k % n else 0
  }

  // The controllers that do not divide evenly must be DMA controllers.
  predicate Attachable(nodes: seq<Controller>, n: nat)
    requires n > 0
  {
    forall k :: Spread(nodes, n) <= k < |nodes| ==> nodes[k].dma
  }

  function ExtLinks(nodes: seq<Controller>, n: nat): (links: seq<ExtLink>)
    requires n > 0
    ensures |links| == |nodes|
    ensures forall k :: 0 <= k < |nodes| ==> links[k] == ExtLink(k, nodes[k], RouterOf(nodes, n, k))
  {
    seq(|nodes|, k requires 0 <= k < |nodes| => ExtLink(k, nodes[k], RouterOf(nodes, n, k)))
  }

  method Attach(nodes: seq<Controller>, numRouters: nat) returns (r: Option<seq<ExtLink>>)
    requires numRouters > 0
    ensures r == if Attachable(nodes, numRouters) then Some(ExtLinks(nodes, numRouters)) else None
  {
    var cntrlsPerRouter, remainder := |nodes| / numRouters, |nodes| % numRouters;
    var networkNodes, remainderNodes := Separate(nodes, remainder);
    var extLinks := AttachRound(nodes, networkNodes, numRouters, cntrlsPerRouter);
    r := AttachRest(nodes, remainderNodes, numRouters, extLinks);
  }

  method Separate(nodes: seq<Controller>, remainder: nat) returns (networkNodes: seq<Controller>, remainderNodes: seq<Controller>)
    requires remainder <= |nodes|
    ensures networkNodes == nodes[..|nodes| - remainder] && remainderNodes == nodes[|nodes| - remainder..]
  {
    networkNodes, remainderNodes := [], [];
    ghost var split := |nodes| - remainder;
    var nodeIndex := 0;
    while nodeIndex < |nodes|
      invariant nodeIndex <= |nodes|
      invariant nodeIndex <= split ==> networkNodes == nodes[..nodeIndex] && remainderNodes == []
      invariant nodeIndex > split ==> networkNodes == nodes[..split] && remainderNodes == nodes[split..nodeIndex]
    {
      if nodeIndex < |nodes| - remainder {
        networkNodes := networkNodes + [nodes[nodeIndex]];
      } else {
        remainderNodes := remainderNodes + [nodes[nodeIndex]];
      }
      nodeIndex := nodeIndex + 1;
    }
  }

  method AttachRound(ghost nodes: seq<Controller>, networkNodes: seq<Controller>, numRouters: nat, cntrlsPerRouter: nat)
    returns (extLinks: seq<ExtLink>)
    requires numRouters > 0 && cntrlsPerRouter == |nodes| / numRouters
    requires networkNodes == nodes[..Spread(nodes, numRouters)]
    ensures extLinks == ExtLinks(nodes, numRouters)[..|networkNodes|]
  {
    var linkCount := 0;
    extLinks := [];
    var i := 0;
    while i < |networkNodes|
      invariant i <= |networkNodes| && linkCount == i
      invariant extLinks == ExtLinks(nodes, numRouters)[..i]
    {
      LevelInRange(i, numRouters, cntrlsPerRouter);
      assert i / numRouters < cntrlsPerRouter;
      extLinks := extLinks + [ExtLink(linkCount, networkNodes[i], i % numRouters)];
      linkCount := linkCount + 1;
      i := i + 1;
    }
  }

  method AttachRest(ghost nodes: seq<Controller>, remainderNodes: seq<Controller>, numRouters: nat, links: seq<ExtLink>)
    returns (r: Option<seq<ExtLink>>)
    requires numRouters > 0
    requires remainderNodes == nodes[Spread(nodes, numRouters)..]
    requires links == ExtLinks(nodes, numRouters)[..Spread(nodes, numRouters)]
    ensures r == if Attachable(nodes, numRouters) then Some(ExtLinks(nodes, numRouters)) else None
  {
    hide Spread;
    var linkCount := |links|;
    var extLinks := links;
    var i := 0;
    while i < |remainderNodes|
      invariant i <= |remainderNodes| && linkCount == |links| + i
      invariant forall k :: |links| <= k < |links| + i ==> nodes[k].dma
      invariant extLinks == ExtLinks(nodes, numRouters)[..|links| + i]
    {
      assert remainderNodes[i] == nodes[|links| + i];
      if !remainderNodes[i].dma {
        return None;
      }
      extLinks := extLinks + [ExtLink(linkCount, remainderNodes[i], 0)];
      linkCount := linkCount + 1;
      i := i + 1;
    }
    assert ExtLinks(nodes, numRouters)[..|nodes|] == ExtLinks(nodes, numRouters);
    r := Some(extLinks);
  }

  lemma LevelInRange(i: nat, n: nat, q: nat)
    requires n > 0 && i < q * n
    ensures i / n < q
  {
    MulSign(i / n - q, n);
  }

  // How many controllers the first m links attach to router r.
  ghost function Load(links: seq<ExtLink>, r: nat, m: nat): nat
    requires m <= |links|
  {
    if m == 0 then 0 else Load(links, r, m - 1) + if links[m - 1].router == r then 1 else 0
  }

  lemma {:induction false} LoadRound(nodes: seq<Controller>, n: nat, r: nat, q: nat, j: nat)
    requires r < n && j <= n && q * n + j <= Spread(nodes, n)
    ensures Load(ExtLinks(nodes, n), r, q * n + j) == q + if r < j then 1 else 0
    decreases q, j
  {
    if j > 0 {
      LoadRound(nodes, n, r, q, j - 1);
      DivModUnique(q * n + j - 1, n, q, j - 1);
    } else if q > 0 {
      assert q * n == (q - 1) * n + n;
      LoadRound(nodes, n, r, q - 1, n);
    } else {
      assert q * n + j == 0;
    }
  }

  lemma {:induction false} LoadRest(nodes: seq<Controller>, n: nat, r: nat, m: nat)
    requires r < n && Spread(nodes, n) <= m <= |nodes|
    ensures Load(ExtLinks(nodes, n), r, m) == |nodes| / n + if r == 0 then m - Spread(nodes, n) else 0
    decreases m
  {
    hide Spread;
    if m == Spread(nodes, n) {
      LoadRound(nodes, n, r, |nodes| / n, 0);
    } else {
      LoadRest(nodes, n, r, m - 1);
    }
  }

  // Every router gets the same number of controllers, and router 0 the remaining ones as well.
  lemma {:induction false} EvenLoad(nodes: seq<Controller>, n: nat, r: nat)
    requires r < n
    ensures Load(ExtLinks(nodes, n), r, |nodes|) == |nodes| / n + if r == 0 then |nodes| % n else 0
  {
    LoadRest(nodes, n, r, |nodes|);
  }
}
