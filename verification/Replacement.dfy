/**
 Demand-fetched caches served by an arbitrary replacement policy, and the exchange
 argument that makes "evict the block used furthest in the future" optimal.

 A policy is not a function here: at every reference it may keep any subset of what it
 holds plus the referenced block, as long as the subset fits.  Bounds proved over `Serves`
 therefore hold for every policy, including ones that know the whole trace.
 */
module Replacement {

  type Block = int

  // One reference: the block must be resident afterwards, nothing else may be fetched.
  ghost predicate Step(k: nat, r: Block, c: set<Block>, c': set<Block>) {
    r in c' && c' <= c + {r} && |c'| <= k
  }

  function Cost(r: Block, c: set<Block>): nat {
    if r in c then 0 else 1
  }

  // Some policy with capacity k serves refs, starting from contents c, with at most m misses.
  ghost predicate Serves(k: nat, refs: seq<Block>, c: set<Block>, m: int)
    decreases |refs|
  {
    m >= 0 &&
    (refs == [] ||
     exists c' :: Step(k, refs[0], c, c') && Serves(k, refs[1..], c', m - Cost(refs[0], c)))
  }

  // Distance to the next use of b; |refs| when b is never used again.
  function FirstUse(refs: seq<Block>, b: Block): (n: nat)
    ensures n <= |refs|
    ensures n < |refs| ==> refs[n] == b
    ensures forall j :: 0 <= j < n ==> refs[j] != b
  {
    if refs == [] || refs[0] == b then 0 else 1 + FirstUse(refs[1..], b)
  }

  // A larger cache content and a larger allowance never hurt.
  lemma {:induction false} ServesMonotone(k: nat, refs: seq<Block>, c: set<Block>, d: set<Block>, m: int, n: int)
    requires Serves(k, refs, c, m)
    requires c <= d && m <= n
    ensures Serves(k, refs, d, n)
    decreases |refs|
  {
    if refs != [] {
      var c' :| Step(k, refs[0], c, c') && Serves(k, refs[1..], c', m - Cost(refs[0], c));
      assert Step(k, refs[0], d, c');
      ServesMonotone(k, refs[1..], c', c', m - Cost(refs[0], c), n - Cost(refs[0], d));
    }
  }

  // What remains of a non-empty trace after one step of some serving policy.
  lemma ServesStep(k: nat, refs: seq<Block>, c: set<Block>, m: int) returns (c': set<Block>)
    requires refs != [] && Serves(k, refs, c, m)
    ensures Step(k, refs[0], c, c') && Serves(k, refs[1..], c', m - Cost(refs[0], c))
  {
    c' :| Step(k, refs[0], c, c') && Serves(k, refs[1..], c', m - Cost(refs[0], c));
  }

  lemma ServesVia(k: nat, refs: seq<Block>, c: set<Block>, c': set<Block>, m: int)
    requires refs != [] && Step(k, refs[0], c, c')
    requires Serves(k, refs[1..], c', m - Cost(refs[0], c))
    ensures Serves(k, refs, c, m)
  {
  }

  // The same step in a cache that lacks block a.
  lemma StepWithout(k: nat, r: Block, c: set<Block>, a: Block, c': set<Block>)
    requires a !in c && Step(k, r, c + {a}, c')
    ensures r == a ==> Step(k, r, c, c') && Cost(r, c) == 1 && Cost(r, c + {a}) == 0
    ensures r != a ==> Step(k, r, c, c' - {a}) && Cost(r, c) == Cost(r, c + {a})
  {
    Shrinks(c', a);
  }

  // Losing one block costs at most one miss.
  lemma {:induction false} ServesDrop(k: nat, refs: seq<Block>, c: set<Block>, a: Block, m: int)
    requires a !in c
    requires Serves(k, refs, c + {a}, m)
    ensures Serves(k, refs, c, m + 1)
    decreases |refs|
  {
    if refs != [] {
      hide Serves, Step, Cost;
      var c2 := ServesStep(k, refs, c + {a}, m);
      StepWithout(k, refs[0], c, a, c2);
      if refs[0] == a {
        ServesVia(k, refs, c, c2, m + 1);
      } else {
        var c1, rest := c2 - {a}, m - Cost(refs[0], c);
        ServesMonotone(k, refs[1..], c2, c1 + {a}, rest, rest);
        ServesDrop(k, refs[1..], c1, a, rest);
        ServesVia(k, refs, c, c1, m + 1);
      }
    }
  }

  lemma Shrinks(c: set<Block>, a: Block)
    ensures |c - {a}| <= |c|
  {
    if a in c {
      assert c == (c - {a}) + {a};
    } else {
      assert c - {a} == c;
    }
  }

  lemma SwapSize(c: set<Block>, a: Block, b: Block)
    requires a in c
    ensures |c - {a} + {b}| <= |c|
  {
    var d := c - {a};
    assert c == d + {a};
    if b in d { assert d + {b} == d; }
  }

  // The exchange at the moment b is used: keeping b turns a miss into a hit, which pays
  // for the later loss of a.
  lemma {:induction false} ServesExchangeAtUse(k: nat, refs: seq<Block>, d: set<Block>, a: Block, b: Block, m: int)
    requires refs != [] && refs[0] == b && a != b && b !in d
    requires Serves(k, refs, d + {a}, m)
    ensures Serves(k, refs, d + {b}, m)
  {
    var c2 := ServesStep(k, refs, d + {a}, m);
    var d' := c2 - {a};
    Shrinks(c2, a);
    ServesMonotone(k, refs[1..], c2, d' + {a}, m - 1, m - 1);
    ServesDrop(k, refs[1..], d', a, m - 1);
    ServesVia(k, refs, d + {b}, d', m);
  }

  // The exchange: holding b instead of a is no worse when b is needed no later than a.
  lemma {:induction false} ServesExchange(k: nat, refs: seq<Block>, d: set<Block>, a: Block, b: Block, m: int)
    requires Serves(k, refs, d + {a}, m)
    requires a !in d && b !in d
    requires FirstUse(refs, b) <= FirstUse(refs, a)
    ensures Serves(k, refs, d + {b}, m)
    decreases |refs|
  {
    if refs == [] || a == b {
    } else if refs[0] == b {
      ServesExchangeAtUse(k, refs, d, a, b, m);
    } else {
      var c2 := ServesStep(k, refs, d + {a}, m);
      if a !in c2 {
        ServesVia(k, refs, d + {b}, c2, m);
      } else {
        var d' := c2 - {a};
        assert c2 == d' + {a};
        SwapSize(c2, a, b);
        ServesExchange(k, refs[1..], d', a, b, m - Cost(refs[0], d + {a}));
        ServesVia(k, refs, d + {b}, d' + {b}, m);
      }
    }
  }

  // On a hit it is optimal to leave the cache alone.
  lemma {:induction false} ServesHit(k: nat, refs: seq<Block>, c: set<Block>, m: int)
    requires refs != [] && refs[0] in c && |c| <= k
    ensures Serves(k, refs, c, m) <==> Serves(k, refs[1..], c, m)
  {
    if Serves(k, refs, c, m) {
      var c' :| Step(k, refs[0], c, c') && Serves(k, refs[1..], c', m - Cost(refs[0], c));
      ServesMonotone(k, refs[1..], c', c, m, m);
    }
    if Serves(k, refs[1..], c, m) {
      assert Step(k, refs[0], c, c);
    }
  }

  // While there is room a miss costs one and evicting anything is pointless.
  lemma ServesFill(k: nat, refs: seq<Block>, c: set<Block>, m: int)
    requires refs != [] && refs[0] !in c && |c| < k
    ensures Serves(k, refs, c, m) <==> Serves(k, refs[1..], c + {refs[0]}, m - 1)
  {
    var r := refs[0];
    if Serves(k, refs, c, m) {
      var c' :| Step(k, r, c, c') && Serves(k, refs[1..], c', m - Cost(r, c));
      ServesMonotone(k, refs[1..], c', c + {r}, m - 1, m - 1);
    }
    if Serves(k, refs[1..], c + {r}, m - 1) {
      assert Step(k, r, c, c + {r});
    }
  }

  // A full cache does best by evicting a block whose next use is furthest away.
  lemma ServesEvictFurthest(k: nat, refs: seq<Block>, c: set<Block>, f: Block, m: int)
    requires refs != [] && refs[0] !in c && |c| == k
    requires f in c
    requires forall y :: y in c ==> FirstUse(refs[1..], y) <= FirstUse(refs[1..], f)
    ensures Serves(k, refs, c, m) <==> Serves(k, refs[1..], c - {f} + {refs[0]}, m - 1)
  {
    if Serves(k, refs, c, m) {
      var c' := ServesStep(k, refs, c, m);
      var y := SomeEvicted(k, refs[0], c, c');
      ServesMonotone(k, refs[1..], c', c - {y} + {refs[0]}, m - 1, m - 1);
      ServesKeepSooner(k, refs[1..], c, refs[0], y, f, m - 1);
    }
    if Serves(k, refs[1..], c - {f} + {refs[0]}, m - 1) {
      SwapSize(c, f, refs[0]);
      ServesVia(k, refs, c, c - {f} + {refs[0]}, m);
    }
  }

  lemma {:induction false} ServesKeepSooner(k: nat, rest: seq<Block>, c: set<Block>, r: Block, y: Block, f: Block, m: int)
    requires r !in c && y in c && f in c
    requires FirstUse(rest, y) <= FirstUse(rest, f)
    requires Serves(k, rest, c - {y} + {r}, m)
    ensures Serves(k, rest, c - {f} + {r}, m)
  {
    var d := c - {y} - {f} + {r};
    if y != f {
      assert c - {y} + {r} == d + {f};
      ServesExchange(k, rest, d, f, y, m);
      assert d + {y} == c - {f} + {r};
    }
  }

  lemma SomeEvicted(k: nat, r: Block, c: set<Block>, c': set<Block>) returns (y: Block)
    requires Step(k, r, c, c') && r !in c && |c| == k
    ensures y in c && c' <= c - {y} + {r}
  {
    assert |c + {r}| == k + 1;
    var evicted := c + {r} - c';
    assert c' + evicted == c + {r};
    y := Pick(evicted);
  }

  lemma Pick<T>(s: set<T>) returns (y: T)
    requires s != {}
    ensures y in s
  {
    y :| y in s;
  }
}
