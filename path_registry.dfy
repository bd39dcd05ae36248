// The registry of claimed binding paths. Every keyed field claims its value
// path as a closed leaf, every container with a `path` claims it as an open
// node, and a repeatable container marks its node with its own id so that
// only its descendants may bind below it.
module PathRegistry {
  import opened Wrappers
  import opened Data
  import opened Fields

  /** One segment of the claimed-path tree. `closed` stands for `children === null`. */
  datatype PathNode = PathNode(
    segment: Seg,
    claimCount: int,
    closed: bool,
    children: seq<PathNode>,
    isRepeatable: bool,
    repeaterId: Option<string>)

  /** The children `_getNextSegment` searches: none below a closed node. */
  function Kids(n: PathNode): seq<PathNode> { if n.closed then [] else n.children }

  /** Position of the first node for segment `s`, or -1. */
  function Find(nodes: seq<PathNode>, s: Seg): (i: int)
    ensures -1 <= i < |nodes|
    ensures i >= 0 ==> nodes[i].segment == s
    ensures forall j :: 0 <= j < |nodes| && (i < 0 || j < i) ==> nodes[j].segment != s
  {
    if nodes == [] then -1
    else if nodes[0].segment == s then 0
    else
      var k := Find(nodes[1..], s);
      if k < 0 then -1 else k + 1
  }

  /** Options of `canClaimPath` and `claimPath`; absent options take their defaults. */
  datatype ClaimOptions = ClaimOptions(
    isClosed: bool,
    isRepeatable: bool,
    skipAncestryCheck: bool,
    claimerId: Option<string>,
    knownAncestorIds: seq<string>)

  datatype PathError = MissingClaimer | CannotClaim(path: Path) | NoOpenPath(path: Path)

  /** `claimerId` is a non-empty id. */
  predicate HasClaimerId(o: ClaimOptions) { o.claimerId.Some? && o.claimerId.value != "" }

  /** `claimerId || knownAncestorIds.length`. */
  predicate ClaimerGiven(o: ClaimOptions) { HasClaimerId(o) || |o.knownAncestorIds| > 0 }

  /** The repeater owning `n` is a known ancestor or an ancestor of the claimer. */
  predicate RepeatClaimValid(reg: Registry, n: PathNode, o: ClaimOptions)
    requires RegistryLinked(reg)
  {
    n.repeaterId.Some?
    && (n.repeaterId.value in o.knownAncestorIds
        || (HasClaimerId(o) && n.repeaterId.value in Ancestry(reg, o.claimerId.value)))
  }

  /**
   * `canClaimPath`: walking the path, a missing segment means the rest is
   * free; a repeater node demands that the claimer descend from its repeater;
   * a closed node blocks; reaching the end of an existing path allows only an
   * open, non-repeatable claim.
   */
  function CanClaim(nodes: seq<PathNode>, path: Path, o: ClaimOptions, reg: Registry): Result<bool, PathError>
    requires RegistryLinked(reg)
    decreases |path|
  {
    if path == [] then Success(!(o.isClosed || o.isRepeatable))
    else
      var i := Find(nodes, path[0]);
      if i < 0 then Success(true)
      else
        var n := nodes[i];
        if n.isRepeatable && !o.skipAncestryCheck && !ClaimerGiven(o) then Failure(MissingClaimer)
        else if n.isRepeatable && !o.skipAncestryCheck && !RepeatClaimValid(reg, n, o) then Success(false)
        else if n.closed then Success(false)
        else CanClaim(n.children, path[1..], o, reg)
  }

  /** The fresh nodes `claimPath` creates for the missing tail `path` of a claim. */
  function Chain(path: Path, o: ClaimOptions): (n: PathNode)
    requires path != []
    ensures n.segment == path[0] && n.claimCount == 1
    decreases |path|
  {
    var last := |path| == 1;
    PathNode(path[0], 1, last && o.isClosed,
      if last then [] else [Chain(path[1..], o)],
      last && o.isRepeatable,
      if last && o.isRepeatable then o.claimerId else None)
  }

  /**
   * The tree after `claimPath` succeeds: every existing node on the path
   * counts one more claim, missing nodes are appended, and the last node is
   * closed or marked as a repeater as the options say.
   */
  function Claim(nodes: seq<PathNode>, path: Path, o: ClaimOptions): (r: seq<PathNode>)
    decreases |path|
  {
    if path == [] then nodes
    else
      var i := Find(nodes, path[0]);
      if i < 0 then nodes + [Chain(path, o)]
      else
        var n := nodes[i];
        var last := |path| == 1;
        nodes[i := n.(
          claimCount := n.claimCount + 1,
          closed := n.closed || (last && o.isClosed),
          children := if last && o.isClosed then [] else Claim(n.children, path[1..], o),
          isRepeatable := n.isRepeatable || (last && o.isRepeatable),
          repeaterId := if last && o.isRepeatable then o.claimerId else n.repeaterId)]
  }

  /** Every segment of the path is present (the verification pass of `unclaimPath`). */
  predicate Exists(nodes: seq<PathNode>, path: Path)
    decreases |path|
  {
    path == [] || (Find(nodes, path[0]) >= 0 && Exists(Kids(nodes[Find(nodes, path[0])]), path[1..]))
  }

  /**
   * The tree after `unclaimPath`: each node on the path counts one claim
   * less, and the first node whose count reaches zero is removed together
   * with everything below it.
   */
  function Unclaim(nodes: seq<PathNode>, path: Path): seq<PathNode>
    requires Exists(nodes, path)
    decreases |path|
  {
    if path == [] then nodes
    else
      var i := Find(nodes, path[0]);
      var n := nodes[i];
      if n.claimCount - 1 == 0 then nodes[..i] + nodes[i + 1..]
      else nodes[i := n.(
        claimCount := n.claimCount - 1,
        children := if |path| == 1 then n.children else Unclaim(Kids(n), path[1..]))]
  }

  function Sum(nodes: seq<PathNode>): int
  {
    if nodes == [] then 0 else nodes[0].claimCount + Sum(nodes[1..])
  }

  predicate DistinctSegments(nodes: seq<PathNode>)
  {
    forall i, j :: 0 <= i < j < |nodes| ==> nodes[i].segment != nodes[j].segment
  }

  /**
   * The shape claims keep: positive counts, a closed node has no children,
   * a node counts at least the claims of its children, and siblings have
   * distinct segments.
   */
  predicate NodeValid(n: PathNode)
  {
    n.claimCount >= 1
    && (n.closed ==> n.children == [])
    && Sum(n.children) <= n.claimCount
    && DistinctSegments(n.children)
    && forall i :: 0 <= i < |n.children| ==> NodeValid(n.children[i])
  }

  predicate Valid(nodes: seq<PathNode>)
  {
    DistinctSegments(nodes) && forall i :: 0 <= i < |nodes| ==> NodeValid(nodes[i])
  }

  /** The node a path leads to, if every segment exists. */
  function NodeAt(nodes: seq<PathNode>, path: Path): (r: Option<PathNode>)
    requires path != []
    ensures r.Some? <==> Exists(nodes, path)
    decreases |path|
  {
    var i := Find(nodes, path[0]);
    if i < 0 then None
    else if |path| == 1 then Some(nodes[i])
    else NodeAt(Kids(nodes[i]), path[1..])
  }

  lemma SumAppend(a: seq<PathNode>, b: seq<PathNode>)
    ensures Sum(a + b) == Sum(a) + Sum(b)
  {
    if a != [] {
      calc {
        Sum(a + b);
        (a + b)[0].claimCount + Sum((a + b)[1..]);
        { assert (a + b)[1..] == a[1..] + b; }
        a[0].claimCount + Sum(a[1..] + b);
        { SumAppend(a[1..], b); }
        a[0].claimCount + Sum(a[1..]) + Sum(b);
      }
    } else {
      assert a + b == b;
    }
  }

  lemma SumUpdate(nodes: seq<PathNode>, i: nat, n: PathNode)
    requires i < |nodes|
    ensures Sum(nodes[i := n]) == Sum(nodes) - nodes[i].claimCount + n.claimCount
  {
    if i > 0 {
      assert nodes[i := n][1..] == nodes[1..][i - 1 := n];
      SumUpdate(nodes[1..], i - 1, n);
    }
  }

  lemma SumRemove(nodes: seq<PathNode>, i: nat)
    requires i < |nodes|
    ensures Sum(nodes[..i] + nodes[i + 1..]) == Sum(nodes) - nodes[i].claimCount
  {
    var a, x, c := nodes[..i], nodes[i], nodes[i + 1..];
    SplitAround(nodes, i);
    hide *;
    SumSingle(x);
    SumAppend(a + [x], c);
    SumAppend(a, [x]);
    SumAppend(a, c);
  }

  lemma SplitAround(nodes: seq<PathNode>, i: nat)
    requires i < |nodes|
    ensures nodes == nodes[..i] + [nodes[i]] + nodes[i + 1..]
  {
  }

  lemma SumSingle(n: PathNode)
    ensures Sum([n]) == n.claimCount
  {
  }

  lemma FindUpdate(nodes: seq<PathNode>, i: nat, n: PathNode, s: Seg)
    requires i < |nodes| && n.segment == nodes[i].segment
    ensures Find(nodes[i := n], s) == Find(nodes, s)
  {
    if nodes[0].segment != s {
      if i == 0 {
        assert nodes[i := n][1..] == nodes[1..];
      } else {
        assert nodes[i := n][1..] == nodes[1..][i - 1 := n];
        FindUpdate(nodes[1..], i - 1, n, s);
      }
    }
  }

  lemma FindAppend(nodes: seq<PathNode>, n: PathNode, s: Seg)
    ensures Find(nodes + [n], s) == (if Find(nodes, s) >= 0 then Find(nodes, s) else if n.segment == s then |nodes| else -1)
  {
    if nodes != [] && nodes[0].segment != s {
      assert (nodes + [n])[1..] == nodes[1..] + [n];
      FindAppend(nodes[1..], n, s);
    }
  }

  /** The fresh chain of a claim can be walked to its end. */
  lemma {:induction false} ChainExists(path: Path, o: ClaimOptions)
    requires path != []
    ensures Exists([Chain(path, o)], path)
    decreases |path|
  {
    if |path| > 1 {
      ChainExists(path[1..], o);
    }
  }

  /** Claiming a path whose first segment is new appends a chain that unclaiming removes again. */
  lemma ClaimNewThenUnclaim(nodes: seq<PathNode>, path: Path, o: ClaimOptions)
    requires path != [] && Find(nodes, path[0]) < 0
    ensures Exists(Claim(nodes, path, o), path)
    ensures Unclaim(Claim(nodes, path, o), path) == nodes
  {
    var c := Claim(nodes, path, o);
    assert c == nodes + [Chain(path, o)];
    FindAppend(nodes, Chain(path, o), path[0]);
    ChainExists(path, o);
    assert Find([Chain(path, o)], path[0]) == 0;
    assert c[|nodes|] == Chain(path, o);
    assert c[..|nodes|] + c[|nodes| + 1..] == nodes;
  }

  /** Claiming and then unclaiming the same path restores the registry exactly. */
  lemma {:induction false} ClaimThenUnclaim(nodes: seq<PathNode>, path: Path, o: ClaimOptions, reg: Registry)
    requires RegistryLinked(reg)
    requires Valid(nodes)
    requires CanClaim(nodes, path, o, reg) == Success(true)
    ensures Exists(Claim(nodes, path, o), path)
    ensures Unclaim(Claim(nodes, path, o), path) == nodes
    decreases |path|
  {
    if path != [] {
      var i := Find(nodes, path[0]);
      if i < 0 {
        ClaimNewThenUnclaim(nodes, path, o);
      } else {
        var n := nodes[i];
        assert NodeValid(n);
        if |path| > 1 {
          ClaimThenUnclaim(n.children, path[1..], o, reg);
        }
        ClaimExistingThenUnclaim(nodes, path, o);
      }
    }
  }

  /** One level of `ClaimThenUnclaim` where the first segment already exists. */
  lemma ClaimExistingThenUnclaim(nodes: seq<PathNode>, path: Path, o: ClaimOptions)
    requires path != [] && Find(nodes, path[0]) >= 0
    requires var n := nodes[Find(nodes, path[0])];
      n.claimCount >= 1 && !n.closed
      && (|path| == 1 ==> !o.isClosed && !o.isRepeatable)
      && (|path| > 1 ==> Exists(Claim(n.children, path[1..], o), path[1..])
                         && Unclaim(Claim(n.children, path[1..], o), path[1..]) == n.children)
    ensures Exists(Claim(nodes, path, o), path)
    ensures Unclaim(Claim(nodes, path, o), path) == nodes
  {
    hide *;
    var i := Find(nodes, path[0]);
    var n := nodes[i];
    var kids := if |path| == 1 then n.children else Claim(n.children, path[1..], o);
    var n' := n.(claimCount := n.claimCount + 1, children := kids);
    ClaimExistingShape(nodes, path, o);
    FindUpdate(nodes, i, n', path[0]);
    assert !n'.closed;
    UnclaimUpdated(nodes, path, n');
  }

  lemma ClaimExistingShape(nodes: seq<PathNode>, path: Path, o: ClaimOptions)
    requires path != [] && Find(nodes, path[0]) >= 0
    requires |path| == 1 ==> !o.isClosed && !o.isRepeatable
    ensures var i := Find(nodes, path[0]); var n := nodes[i];
      Claim(nodes, path, o) == nodes[i := n.(
        claimCount := n.claimCount + 1,
        children := if |path| == 1 then n.children else Claim(n.children, path[1..], o))]
  {
  }

  lemma UnclaimUpdated(nodes: seq<PathNode>, path: Path, n': PathNode)
    requires path != [] && Find(nodes, path[0]) >= 0
    requires var i := Find(nodes, path[0]); var n := nodes[i];
      Find(nodes[i := n'], path[0]) == i
      && n'.claimCount == n.claimCount + 1 && n.claimCount >= 1 && !n'.closed
      && n' == n.(claimCount := n'.claimCount, children := n'.children)
      && (|path| == 1 ==> n'.children == n.children)
      && (|path| > 1 ==> Exists(n'.children, path[1..]) && Unclaim(n'.children, path[1..]) == n.children)
    ensures var c := nodes[Find(nodes, path[0]) := n'];
      Exists(c, path) && Unclaim(c, path) == nodes
  {
    var i := Find(nodes, path[0]);
    var c := nodes[i := n'];
    assert c[i] == n';
    assert Unclaim(c, path) == c[i := nodes[i]];
    assert c[i := nodes[i]] == nodes;
  }

  lemma SumChainChildren(path: Path, o: ClaimOptions)
    requires path != []
    ensures Sum(Chain(path, o).children) == (if |path| == 1 then 0 else 1)
  {
    if |path| > 1 {
      assert Sum([Chain(path[1..], o)]) == 1 + Sum([]);
    }
  }

  lemma {:induction false} ChainValid(path: Path, o: ClaimOptions)
    requires path != []
    ensures NodeValid(Chain(path, o))
    decreases |path|
  {
    SumChainChildren(path, o);
    if |path| > 1 {
      ChainValid(path[1..], o);
    }
  }

  /** A claim adds exactly one to the claim total of the level it starts in. */
  lemma SumClaim(nodes: seq<PathNode>, path: Path, o: ClaimOptions)
    ensures Sum(Claim(nodes, path, o)) == Sum(nodes) + (if path == [] then 0 else 1)
  {
    if path != [] {
      var i := Find(nodes, path[0]);
      if i < 0 {
        SumAppend(nodes, [Chain(path, o)]);
      } else {
        SumUpdate(nodes, i, Claim(nodes, path, o)[i]);
      }
    }
  }

  lemma DistinctUpdate(nodes: seq<PathNode>, i: nat, n: PathNode)
    requires i < |nodes| && DistinctSegments(nodes) && n.segment == nodes[i].segment
    ensures DistinctSegments(nodes[i := n])
  {
  }

  /** An allowed claim keeps the registry well formed. */
  lemma {:induction false} ClaimValid(nodes: seq<PathNode>, path: Path, o: ClaimOptions, reg: Registry)
    requires RegistryLinked(reg)
    requires Valid(nodes)
    requires CanClaim(nodes, path, o, reg) == Success(true)
    ensures Valid(Claim(nodes, path, o))
    decreases |path|
  {
    ClaimEmpty(nodes, o);
    hide *;
    if path != [] {
      ClaimStep(nodes, path, o, reg);
      var i := Find(nodes, path[0]);
      if i < 0 {
        ChainValid(path, o);
        AppendValid(nodes, Chain(path, o));
      } else {
        var n := nodes[i];
        ValidAt(nodes, i);
        ChildrenValid(n);
        var kids := n.children;
        if |path| > 1 {
          ClaimValid(n.children, path[1..], o, reg);
          SumClaim(n.children, path[1..], o);
          kids := Claim(n.children, path[1..], o);
        }
        var n' := n.(claimCount := n.claimCount + 1, children := kids);
        BumpedValid(n, kids);
        UpdateValid(nodes, i, n');
      }
    }
  }

  lemma ClaimEmpty(nodes: seq<PathNode>, o: ClaimOptions)
    ensures Claim(nodes, [], o) == nodes
  {
  }

  /** One step of an allowed claim: a missing node is appended as a chain, an existing open one counts one more claim. */
  lemma ClaimStep(nodes: seq<PathNode>, path: Path, o: ClaimOptions, reg: Registry)
    requires RegistryLinked(reg) && path != [] && CanClaim(nodes, path, o, reg) == Success(true)
    ensures var i := Find(nodes, path[0]);
      && (i < 0 ==> Claim(nodes, path, o) == nodes + [Chain(path, o)])
      && (i >= 0 ==> var n := nodes[i];
        && !n.closed
        && (|path| == 1 ==>
              Claim(nodes, path, o) == nodes[i := n.(claimCount := n.claimCount + 1, children := n.children)])
        && (|path| > 1 ==>
              && CanClaim(n.children, path[1..], o, reg) == Success(true)
              && Claim(nodes, path, o) == nodes[i := n.(claimCount := n.claimCount + 1, children := Claim(n.children, path[1..], o))]))
  {
  }

  lemma ChildrenValid(n: PathNode)
    requires NodeValid(n)
    ensures n.claimCount >= 1 && Valid(n.children) && Sum(n.children) <= n.claimCount
  {
  }

  /** An open node with one more claim and valid children summing to at most the new count is valid. */
  lemma BumpedValid(n: PathNode, kids: seq<PathNode>)
    requires n.claimCount >= 1 && !n.closed && Valid(kids) && Sum(kids) <= n.claimCount + 1
    ensures NodeValid(n.(claimCount := n.claimCount + 1, children := kids))
  {
  }

  /** Appending a valid node under a new segment keeps a level valid. */
  lemma AppendValid(nodes: seq<PathNode>, x: PathNode)
    requires Valid(nodes) && NodeValid(x) && forall j :: 0 <= j < |nodes| ==> nodes[j].segment != x.segment
    ensures Valid(nodes + [x])
  {
    var c := nodes + [x];
    forall j | 0 <= j < |c| ensures NodeValid(c[j]) {
      if j < |nodes| { assert c[j] == nodes[j]; }
    }
  }

  /** The node at the end of the path counts claims of its own, beyond those of its children. */
  predicate OwnClaim(nodes: seq<PathNode>, path: Path)
    requires path != []
  {
    var n := NodeAt(nodes, path); n.Some? && Sum(Kids(n.value)) < n.value.claimCount
  }

  lemma DistinctRemove(nodes: seq<PathNode>, i: nat)
    requires i < |nodes| && DistinctSegments(nodes)
    ensures DistinctSegments(nodes[..i] + nodes[i + 1..])
  {
    var r := nodes[..i] + nodes[i + 1..];
    forall a, b | 0 <= a < b < |r| ensures r[a].segment != r[b].segment {
      var a', b' := if a < i then a else a + 1, if b < i then b else b + 1;
      assert r[a] == nodes[a'] && r[b] == nodes[b'];
    }
  }

  /** Removing a claim the path holds of its own keeps the registry well formed and one claim lighter. */
  lemma {:induction false} UnclaimValid(nodes: seq<PathNode>, path: Path)
    requires Valid(nodes)
    requires path != [] && OwnClaim(nodes, path)
    ensures Valid(Unclaim(nodes, path))
    ensures Sum(Unclaim(nodes, path)) == Sum(nodes) - 1
    decreases |path|
  {
    hide *;
    OwnClaimStep(nodes, path);
    UnclaimStep(nodes, path);
    var i := Find(nodes, path[0]);
    var n := nodes[i];
    ValidAt(nodes, i);
    KidsValid(n);
    if n.claimCount - 1 == 0 {
      RemoveValid(nodes, i);
    } else {
      var kids := if |path| == 1 then n.children else Unclaim(Kids(n), path[1..]);
      if |path| > 1 {
        UnclaimValid(Kids(n), path[1..]);
      }
      var n' := n.(claimCount := n.claimCount - 1, children := kids);
      UnclaimedNodeValid(n, |path| == 1, kids);
      UpdateValid(nodes, i, n');
      SumUpdate(nodes, i, n');
    }
  }

  lemma ValidAt(nodes: seq<PathNode>, i: nat)
    requires Valid(nodes) && i < |nodes|
    ensures NodeValid(nodes[i])
  {
  }

  lemma KidsValid(n: PathNode)
    requires NodeValid(n)
    ensures Valid(Kids(n))
  {
  }

  /** The path's first node exists, and the rest of the path holds its own claim below it. */
  lemma OwnClaimStep(nodes: seq<PathNode>, path: Path)
    requires path != [] && OwnClaim(nodes, path)
    ensures var i := Find(nodes, path[0]);
      && i >= 0 && Exists(nodes, path)
      && (|path| == 1 ==> Sum(Kids(nodes[i])) < nodes[i].claimCount)
      && (|path| > 1 ==> !nodes[i].closed && OwnClaim(Kids(nodes[i]), path[1..]))
  {
  }

  /** One step of `unclaimPath` on the first segment. */
  lemma UnclaimStep(nodes: seq<PathNode>, path: Path)
    requires path != [] && Exists(nodes, path)
    ensures var i := Find(nodes, path[0]); var n := nodes[i];
      && i >= 0
      && (|path| > 1 ==> Exists(Kids(n), path[1..]))
      && Unclaim(nodes, path) == if n.claimCount - 1 == 0 then nodes[..i] + nodes[i + 1..]
        else nodes[i := n.(
          claimCount := n.claimCount - 1,
          children := if |path| == 1 then n.children else Unclaim(Kids(n), path[1..]))]
  {
  }

  /** A node that keeps a claim after losing one stays well formed. */
  lemma UnclaimedNodeValid(n: PathNode, last: bool, kids: seq<PathNode>)
    requires NodeValid(n) && n.claimCount - 1 != 0
    requires last ==> kids == n.children && Sum(Kids(n)) < n.claimCount
    requires !last ==> !n.closed && Valid(kids) && Sum(kids) == Sum(Kids(n)) - 1
    ensures NodeValid(n.(claimCount := n.claimCount - 1, children := kids))
  {
  }

  /** Dropping a node whose count is one keeps the registry well formed. */
  lemma RemoveValid(nodes: seq<PathNode>, i: nat)
    requires Valid(nodes) && i < |nodes|
    ensures Valid(nodes[..i] + nodes[i + 1..])
    ensures Sum(nodes[..i] + nodes[i + 1..]) == Sum(nodes) - nodes[i].claimCount
  {
    var u := nodes[..i] + nodes[i + 1..];
    DistinctRemove(nodes, i);
    SumRemove(nodes, i);
    forall j | 0 <= j < |u| ensures NodeValid(u[j]) {
      assert u[j] == nodes[if j < i then j else j + 1];
    }
  }

  /** Replacing a node by a well-formed one for the same segment keeps the registry well formed. */
  lemma UpdateValid(nodes: seq<PathNode>, i: nat, n: PathNode)
    requires Valid(nodes) && i < |nodes| && NodeValid(n) && n.segment == nodes[i].segment
    ensures Valid(nodes[i := n])
  {
    DistinctUpdate(nodes, i, n);
  }

  /** After a closed claim the path is taken: no claim of it or below it is allowed any more. */
  lemma {:induction false} ClosedClaimBlocks(nodes: seq<PathNode>, path: Path, o: ClaimOptions, reg: Registry, q: Path, o2: ClaimOptions)
    requires RegistryLinked(reg)
    requires Valid(nodes)
    requires o.isClosed && path != []
    requires CanClaim(nodes, path, o, reg) == Success(true)
    requires |path| <= |q| && q[..|path|] == path
    ensures CanClaim(Claim(nodes, path, o), q, o2, reg) != Success(true)
    decreases |path|
  {
    var i := Find(nodes, path[0]);
    var c := Claim(nodes, path, o);
    if i < 0 {
      FindAppend(nodes, Chain(path, o), path[0]);
      assert c[|nodes|] == Chain(path, o);
      ChainBlocks(path, o, reg, q, o2);
    } else {
      FindUpdate(nodes, i, c[i], path[0]);
      if |path| > 1 {
        assert q[1..][..|path| - 1] == q[1..|path|] == q[..|path|][1..];
        ClosedClaimBlocks(nodes[i].children, path[1..], o, reg, q[1..], o2);
      }
    }
  }

  lemma {:induction false} ChainBlocks(path: Path, o: ClaimOptions, reg: Registry, q: Path, o2: ClaimOptions)
    requires RegistryLinked(reg)
    requires o.isClosed && path != []
    requires |path| <= |q| && q[..|path|] == path
    ensures CanClaim([Chain(path, o)], q, o2, reg) != Success(true)
    decreases |path|
  {
    if |path| > 1 {
      assert q[1..][..|path| - 1] == q[1..|path|] == q[..|path|][1..];
      ChainBlocks(path[1..], o, reg, q[1..], o2);
    }
  }

  /** A path that already exists can only be claimed again as open and non-repeatable. */
  lemma {:induction false} ExistingPathOnlyOpen(nodes: seq<PathNode>, path: Path, o: ClaimOptions, reg: Registry)
    requires RegistryLinked(reg)
    requires Exists(nodes, path)
    requires CanClaim(nodes, path, o, reg) == Success(true)
    ensures !o.isClosed && !o.isRepeatable
    decreases |path|
  {
    if path != [] {
      var n := nodes[Find(nodes, path[0])];
      ExistingPathOnlyOpen(n.children, path[1..], o, reg);
    }
  }

  // ---------------------------------------------------------------------
  // The names in the tree

  /** The key names of a path's segments. */
  function KeyNames(path: Path): set<string>
  {
    set j | 0 <= j < |path| && path[j].Key? :: path[j].name
  }

  lemma LastKeyNamed(path: Path, k: string)
    requires |path| >= 1 && path[|path| - 1] == Key(k)
    ensures k in KeyNames(path)
  {
  }

  /** Every key name that labels a node anywhere in the tree. */
  function Names(nodes: seq<PathNode>): set<string>
    decreases nodes, 1
  {
    set i, x | 0 <= i < |nodes| && x in NodeNames(nodes[i]) :: x
  }

  /** The key names of a node and of everything below it. */
  function NodeNames(n: PathNode): set<string>
    decreases n, 0
  {
    (if n.segment.Key? then {n.segment.name} else {}) + Names(n.children)
  }

  lemma NamesAt(nodes: seq<PathNode>, i: nat)
    requires i < |nodes|
    ensures NodeNames(nodes[i]) <= Names(nodes)
  {
    forall x | x in NodeNames(nodes[i]) ensures x in Names(nodes) {
    }
  }

  lemma {:induction false} ChainNames(path: Path, o: ClaimOptions)
    requires path != []
    ensures KeyNames(path) <= NodeNames(Chain(path, o))
    decreases |path|
  {
    var c := Chain(path, o);
    if |path| > 1 {
      ChainNames(path[1..], o);
      NamesAt(c.children, 0);
    }
    forall x | x in KeyNames(path) ensures x in NodeNames(c) {
      var j :| 0 <= j < |path| && path[j].Key? && path[j].name == x;
      if j > 0 {
        assert path[1..][j - 1] == path[j];
      }
    }
  }

  /**
   * An allowed claim keeps every name of the tree and adds the key names of
   * the claimed path: a name generated after the claim cannot repeat one of
   * them.
   */
  lemma {:induction false} ClaimNames(nodes: seq<PathNode>, path: Path, o: ClaimOptions, reg: Registry)
    requires RegistryLinked(reg)
    requires CanClaim(nodes, path, o, reg) == Success(true)
    ensures Names(nodes) + KeyNames(path) <= Names(Claim(nodes, path, o))
    decreases |path|
  {
    if path != [] {
      ClaimStep(nodes, path, o, reg);
      var i := Find(nodes, path[0]);
      hide *;
      if i < 0 {
        ChainNames(path, o);
        AppendNames(nodes, Chain(path, o));
      } else {
        var n := nodes[i];
        var kids := if |path| == 1 then n.children else Claim(n.children, path[1..], o);
        if |path| > 1 {
          ClaimNames(n.children, path[1..], o, reg);
        }
        BumpNames(n, kids, path);
        UpdateNames(nodes, i, n.(claimCount := n.claimCount + 1, children := kids));
      }
    }
  }

  lemma AppendNames(nodes: seq<PathNode>, x: PathNode)
    ensures Names(nodes) + NodeNames(x) <= Names(nodes + [x])
  {
    var c := nodes + [x];
    NamesAt(c, |nodes|);
    forall y | y in Names(nodes) ensures y in Names(c) {
      var k :| 0 <= k < |nodes| && y in NodeNames(nodes[k]);
      NamesAt(c, k);
    }
  }

  /** The node a claim leaves on an existing segment keeps its names and gains those of the claimed path. */
  lemma BumpNames(n: PathNode, kids: seq<PathNode>, path: Path)
    requires path != [] && n.segment == path[0]
    requires Names(n.children) + KeyNames(path[1..]) <= Names(kids)
    ensures NodeNames(n) + KeyNames(path) <= NodeNames(n.(claimCount := n.claimCount + 1, children := kids))
  {
    forall x | x in KeyNames(path) ensures x in NodeNames(n.(claimCount := n.claimCount + 1, children := kids)) {
      var j :| 0 <= j < |path| && path[j].Key? && path[j].name == x;
      if j > 0 {
        assert path[1..][j - 1] == path[j];
      }
    }
  }

  lemma UpdateNames(nodes: seq<PathNode>, i: nat, n: PathNode)
    requires i < |nodes|
    ensures Names(nodes) - NodeNames(nodes[i]) <= Names(nodes[i := n])
    ensures NodeNames(n) <= Names(nodes[i := n])
  {
    var c := nodes[i := n];
    NamesAt(c, i);
    forall y | y in Names(nodes) - NodeNames(nodes[i]) ensures y in Names(c) {
      var k :| 0 <= k < |nodes| && y in NodeNames(nodes[k]);
      NamesAt(c, k);
    }
  }

  // ---------------------------------------------------------------------
  // Releasing a closed claim and taking it back

  /**
   * The tree a release of `path` followed by a closed claim of the same
   * path leaves: the node the release removed (the first one whose count
   * drops to zero) is back, at the end of its siblings; all else is as it was.
   */
  function Restored(nodes: seq<PathNode>, path: Path): seq<PathNode>
    requires Exists(nodes, path)
    decreases |path|
  {
    if path == [] then nodes
    else
      var i := Find(nodes, path[0]);
      var n := nodes[i];
      if n.claimCount - 1 == 0 then nodes[..i] + nodes[i + 1..] + [n]
      else if |path| == 1 then nodes
      else nodes[i := n.(children := Restored(Kids(n), path[1..]))]
  }

  /** No node on the path that only this claim holds carries a repeater stamp. */
  predicate Unmarked(nodes: seq<PathNode>, path: Path)
    requires Exists(nodes, path)
    decreases |path|
  {
    path == [] ||
    (var n := nodes[Find(nodes, path[0])];
     (n.claimCount == 1 ==> !n.isRepeatable && n.repeaterId.None?) && Unmarked(Kids(n), path[1..]))
  }

  /** The path ends on a closed node, as a keyed field's claim does. */
  predicate LeafClosed(nodes: seq<PathNode>, path: Path)
    requires path != [] && Exists(nodes, path)
  {
    NodeAt(nodes, path).value.closed
  }

  lemma {:induction false} SumAtLeast(nodes: seq<PathNode>)
    requires forall j :: 0 <= j < |nodes| ==> nodes[j].claimCount >= 1
    ensures Sum(nodes) >= |nodes|
  {
    if nodes != [] {
      SumAtLeast(nodes[1..]);
    }
  }

  /** A node only one claim holds, along a closed path without repeater stamps, is the chain a claim creates. */
  lemma {:induction false} ChainOf(n: PathNode, path: Path, o: ClaimOptions)
    requires NodeValid(n) && path != [] && n.segment == path[0] && n.claimCount == 1
    requires Exists([n], path) && LeafClosed([n], path) && Unmarked([n], path)
    requires o.isClosed && !o.isRepeatable
    ensures n == Chain(path, o)
    decreases |path|
  {
    assert Find([n], path[0]) == 0;
    if |path| > 1 {
      assert Exists(Kids(n), path[1..]);
      assert !n.closed;
      var c := n.children;
      SumAtLeast(c);
      assert |c| == 1;
      SumSingle(c[0]);
      assert [c[0]] == c;
      ChainOf(c[0], path[1..], o);
    }
  }

  lemma FindAbsent(nodes: seq<PathNode>, s: Seg)
    requires forall j :: 0 <= j < |nodes| ==> nodes[j].segment != s
    ensures Find(nodes, s) == -1
  {
  }

  /**
   * Releasing a keyed field's closed claim and claiming the same path again
   * as closed rebuilds the tree, up to where the released node now stands
   * among its siblings.
   */
  lemma {:induction false} ReclaimRestores(nodes: seq<PathNode>, path: Path, o: ClaimOptions)
    requires Valid(nodes) && path != [] && Exists(nodes, path)
    requires LeafClosed(nodes, path) && Unmarked(nodes, path)
    requires o.isClosed && !o.isRepeatable
    ensures Claim(Unclaim(nodes, path), path, o) == Restored(nodes, path)
    decreases |path|
  {
    hide NodeValid, Sum, Chain;
    UnclaimStep(nodes, path);
    var i := Find(nodes, path[0]);
    var n := nodes[i];
    ValidAt(nodes, i);
    if n.claimCount == 1 {
      var rest := nodes[..i] + nodes[i + 1..];
      DistinctRemove(nodes, i);
      forall j | 0 <= j < |rest| ensures rest[j].segment != path[0] {
        assert rest[j] == nodes[if j < i then j else j + 1];
      }
      FindAbsent(rest, path[0]);
      assert Find([n], path[0]) == 0;
      assert NodeAt([n], path) == NodeAt(nodes, path);
      ChainOf(n, path, o);
    } else {
      var u := Unclaim(nodes, path);
      FindUpdate(nodes, i, u[i], path[0]);
      if |path| > 1 {
        KidsValid(n);
        ReclaimRestores(Kids(n), path[1..], o);
      }
    }
  }

  /** What a query sees of a node: its count, its closed mark and its repeater stamp. */
  function Info(n: Option<PathNode>): Option<(int, bool, bool, Option<string>)>
  {
    if n.None? then None else Some((n.value.claimCount, n.value.closed, n.value.isRepeatable, n.value.repeaterId))
  }

  lemma {:induction false} FindAt(nodes: seq<PathNode>, j: nat)
    requires DistinctSegments(nodes) && j < |nodes|
    ensures Find(nodes, nodes[j].segment) == j
  {
    var k := Find(nodes, nodes[j].segment);
    assert k >= 0;
  }

  /** In a level whose segments are distinct, moving one node to the end changes no lookup. */
  lemma MovedFind(nodes: seq<PathNode>, i: nat, s: Seg)
    requires DistinctSegments(nodes) && i < |nodes|
    ensures var m := nodes[..i] + nodes[i + 1..] + [nodes[i]];
      (Find(m, s) >= 0 <==> Find(nodes, s) >= 0)
      && (Find(m, s) >= 0 ==> m[Find(m, s)] == nodes[Find(nodes, s)])
  {
    var m := nodes[..i] + nodes[i + 1..] + [nodes[i]];
    MovedAt(nodes, i);
    MovedDistinct(nodes, i);
    hide *;
    var k := Find(nodes, s);
    if k >= 0 {
      var k' := if k < i then k else if k == i then |nodes| - 1 else k - 1;
      assert m[k'] == nodes[k];
      FindAt(m, k');
    } else {
      forall j | 0 <= j < |m| ensures m[j].segment != s {
        var j' := if j == |nodes| - 1 then i else if j < i then j else j + 1;
        assert m[j] == nodes[j'];
      }
      FindAbsent(m, s);
    }
  }

  /** Moving a node to the end keeps the segments of a level distinct. */
  lemma MovedDistinct(nodes: seq<PathNode>, i: nat)
    requires DistinctSegments(nodes) && i < |nodes|
    ensures DistinctSegments(nodes[..i] + nodes[i + 1..] + [nodes[i]])
  {
    var m := nodes[..i] + nodes[i + 1..] + [nodes[i]];
    MovedAt(nodes, i);
    forall a, b | 0 <= a < b < |m| ensures m[a].segment != m[b].segment {
      var a' := if a == |nodes| - 1 then i else if a < i then a else a + 1;
      var b' := if b == |nodes| - 1 then i else if b < i then b else b + 1;
      assert m[a] == nodes[a'] && m[b] == nodes[b'];
    }
  }

  /** Where each node of a level ends up when node `i` moves to the end. */
  lemma MovedAt(nodes: seq<PathNode>, i: nat)
    requires i < |nodes|
    ensures var m := nodes[..i] + nodes[i + 1..] + [nodes[i]];
      && |m| == |nodes| && m[|nodes| - 1] == nodes[i]
      && (forall j :: 0 <= j < i ==> m[j] == nodes[j])
      && (forall j :: i <= j < |nodes| - 1 ==> m[j] == nodes[j + 1])
  {
  }

  /** The restored tree answers every lookup as the original did: the same paths with the same counts and marks. */
  lemma {:induction false} RestoredAt(nodes: seq<PathNode>, path: Path, q: Path)
    requires Valid(nodes) && Exists(nodes, path) && q != []
    ensures Info(NodeAt(Restored(nodes, path), q)) == Info(NodeAt(nodes, q))
    decreases |path|
  {
    hide NodeValid, Sum;
    if path != [] {
      var i := Find(nodes, path[0]);
      var n := nodes[i];
      var r := Restored(nodes, path);
      if n.claimCount - 1 == 0 {
        MovedFind(nodes, i, q[0]);
      } else if |path| > 1 {
        FindUpdate(nodes, i, r[i], q[0]);
        if Find(nodes, q[0]) == i && |q| > 1 {
          ValidAt(nodes, i);
          KidsValid(n);
          RestoredAt(Kids(n), path[1..], q[1..]);
        }
      }
    }
  }

  /** Two levels that find the same kind of node for the first segment answer a claim alike. */
  lemma CanClaimAlike(a: seq<PathNode>, b: seq<PathNode>, q: Path, o: ClaimOptions, reg: Registry)
    requires RegistryLinked(reg) && q != []
    requires Find(a, q[0]) >= 0 <==> Find(b, q[0]) >= 0
    requires Find(a, q[0]) >= 0 ==>
      var x, y := a[Find(a, q[0])], b[Find(b, q[0])];
      x.closed == y.closed && x.isRepeatable == y.isRepeatable && x.repeaterId == y.repeaterId
      && CanClaim(x.children, q[1..], o, reg) == CanClaim(y.children, q[1..], o, reg)
    ensures CanClaim(a, q, o, reg) == CanClaim(b, q, o, reg)
  {
  }

  /** The restored tree allows and refuses exactly the claims the original did. */
  lemma {:induction false} RestoredCanClaim(nodes: seq<PathNode>, path: Path, q: Path, o: ClaimOptions, reg: Registry)
    requires RegistryLinked(reg)
    requires Valid(nodes) && Exists(nodes, path)
    ensures CanClaim(Restored(nodes, path), q, o, reg) == CanClaim(nodes, q, o, reg)
    decreases |path|
  {
    hide NodeValid, Sum;
    if path != [] && q != [] {
      var i := Find(nodes, path[0]);
      var n := nodes[i];
      var r := Restored(nodes, path);
      if n.claimCount - 1 == 0 {
        MovedFind(nodes, i, q[0]);
        assert r == nodes[..i] + nodes[i + 1..] + [nodes[i]];
        CanClaimAlike(r, nodes, q, o, reg);
      } else if |path| > 1 {
        assert r == nodes[i := n.(children := Restored(Kids(n), path[1..]))];
        FindUpdate(nodes, i, r[i], q[0]);
        if Find(nodes, q[0]) == i {
          ValidAt(nodes, i);
          KidsValid(n);
          assert !n.closed;
          RestoredCanClaim(Kids(n), path[1..], q[1..], o, reg);
        }
        CanClaimAlike(r, nodes, q, o, reg);
      }
    }
  }

  /** The registry of claimed paths, `_dataPaths` in the source. */
  class PathRegistry {
    var dataPaths: seq<PathNode>

    constructor()
      ensures dataPaths == []
    {
      dataPaths := [];
    }

    /** `canClaimPath`, walking the tree segment by segment. */
    method CanClaimPath(path: Path, o: ClaimOptions, reg: Registry) returns (r: Result<bool, PathError>)
      requires RegistryLinked(reg)
      ensures r == CanClaim(dataPaths, path, o, reg)
    {
      var nodes := dataPaths;
      var k := 0;
      while k < |path|
        invariant 0 <= k <= |path|
        invariant CanClaim(nodes, path[k..], o, reg) == CanClaim(dataPaths, path, o, reg)
      {
        var i := Find(nodes, path[k]);
        if i < 0 {
          return Success(true);
        }
        var n := nodes[i];
        if n.isRepeatable && !o.skipAncestryCheck {
          if !ClaimerGiven(o) {
            return Failure(MissingClaimer);
          }
          var valid := n.repeaterId.Some? && n.repeaterId.value in o.knownAncestorIds;
          if !valid && HasClaimerId(o) {
            var ancestors := GetAncestryList(reg, o.claimerId.value);
            valid := n.repeaterId.Some? && n.repeaterId.value in ancestors;
          }
          if !valid {
            return Success(false);
          }
        }
        if n.closed {
          return Success(false);
        }
        assert path[k..][1..] == path[k + 1..];
        nodes := n.children;
        k := k + 1;
      }
      return Success(!(o.isClosed || o.isRepeatable));
    }

    /** `claimPath`: the ancestry check always runs, and a refused claim throws. */
    method ClaimPath(path: Path, o: ClaimOptions, reg: Registry) returns (err: Option<PathError>)
      requires RegistryLinked(reg)
      modifies this
      ensures var check := CanClaim(old(dataPaths), path, o.(skipAncestryCheck := false), reg);
        match check
        case Failure(e) => err == Some(e) && dataPaths == old(dataPaths)
        case Success(false) => err == Some(CannotClaim(path)) && dataPaths == old(dataPaths)
        case Success(true) => err.None? && dataPaths == Claim(old(dataPaths), path, o)
    {
      var check := CanClaimPath(path, o.(skipAncestryCheck := false), reg);
      if check.Failure? {
        return Some(check.error);
      }
      if !check.value {
        return Some(CannotClaim(path));
      }
      dataPaths := Claim(dataPaths, path, o);
      return None;
    }

    /** `unclaimPath`: a first pass checks the whole path exists, a second one releases the claim. */
    method UnclaimPath(path: Path) returns (err: Option<PathError>)
      modifies this
      ensures Exists(old(dataPaths), path) ==> err.None? && dataPaths == Unclaim(old(dataPaths), path)
      ensures !Exists(old(dataPaths), path) ==> err == Some(NoOpenPath(path)) && dataPaths == old(dataPaths)
    {
      var nodes := dataPaths;
      var k := 0;
      while k < |path|
        invariant 0 <= k <= |path|
        invariant Exists(dataPaths, path) == Exists(nodes, path[k..])
      {
        var i := Find(nodes, path[k]);
        if i < 0 {
          return Some(NoOpenPath(path));
        }
        assert path[k..][1..] == path[k + 1..];
        nodes := Kids(nodes[i]);
        k := k + 1;
      }
      dataPaths := Unclaim(dataPaths, path);
      return None;
    }

    /** `clear`: forgets every claim. */
    method Clear()
      modifies this
      ensures dataPaths == []
    {
      dataPaths := [];
    }
  }
}
