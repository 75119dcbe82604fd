/**
 * Speculative path resolution as a function of the tree: where the walk of
 * speculateNodeWithName ends, which stub nodes it attaches and which
 * requests it dispatches, together with what is proved about it.
 */
module Speculation {
  import opened Wrappers
  import opened FileTree
  import opened Remote

  /** Where a walk ends, the tree it leaves and the requests it dispatches, in order. */
  datatype Outcome = Outcome(found: Option<Path>, tree: Tree, asks: seq<Request>)

  /** A stub node: a folder, or a file for the last segment of a file path; size 0. */
  function StubData(isLast: bool, folder: bool): (d: NodeData)
    ensures d.size == 0
    ensures d.ftype == File <==> isLast && !folder
  {
    if isLast && !folder then NodeData(File, 0, OtherState) else NodeData(Dir, 0, FolderSpeculateIdle)
  }

  /** The states in which a folder that receives a stub is re-listed. */
  predicate NeedsRefresh(s: NodeState)
  {
    s == FolderKnownContentsNot || s == FolderSpeculateIdle
  }

  /**
   * The listing requested for a folder that receives a stub: none when its
   * state does not call for one or it already has a listing task.
   */
  function StubRefresh(t: Tree, ls: set<Path>, node: Path): seq<Request>
    requires node in t
  {
    if NeedsRefresh(t[node].state) && node !in ls then [RemoteLs(node)] else []
  }

  /**
   * The request for the resolved node: a folder listing, or a buffer fetch
   * for a file; none when the node already has that task.
   */
  function FinalAsks(ls: set<Path>, bf: set<Path>, node: Path, folder: bool): seq<Request>
  {
    if folder then (if node in ls then [] else [RemoteLs(node)])
    else (if node in bf then [] else [DownloadBuffer(node)])
  }

  /**
   * The walk from node through the segments rest, with ls and bf the nodes
   * that already have a listing or a buffer task.
   */
  function Walk(t: Tree, ls: set<Path>, bf: set<Path>, node: Path, rest: seq<string>, folder: bool): (r: Outcome)
    requires node in t
    ensures t.Keys <= r.tree.Keys
    ensures |r.asks| <= |rest| + 1
    decreases |rest|
  {
    if rest == [] then Outcome(Some(node), t, FinalAsks(ls, bf, node, folder))
    else
      var child := node + [rest[0]];
      if child in t then Walk(t, ls, bf, child, rest[1..], folder)
      else if t[node].ftype != Dir || t[node].state == FolderContentsLoaded then Outcome(None, t, [])
      else
        var o := Walk(t[child := StubData(|rest| == 1, folder)], ls, bf, child, rest[1..], folder);
        o.(asks := StubRefresh(t, ls, node) + o.asks)
  }

  /** How many leading segments of rest already exist below node. */
  function FirstMissing(t: Tree, node: Path, rest: seq<string>): (k: nat)
    requires node in t
    ensures k <= |rest| && node + rest[..k] in t
    ensures k < |rest| ==> node + rest[..k + 1] !in t
    decreases |rest|
  {
    if rest == [] || node + [rest[0]] !in t then
      assert node + rest[..0] == node;
      assert rest != [] ==> node + rest[..1] == node + [rest[0]];
      0
    else
      var k := FirstMissing(t, node + [rest[0]], rest[1..]);
      assert node + [rest[0]] + rest[1..][..k] == node + rest[..k + 1];
      assert k < |rest| - 1 ==> node + [rest[0]] + rest[1..][..k + 1] == node + rest[..k + 2];
      1 + k
  }

  /**
   * The walk is refused: the first missing segment lies under a file, or
   * under a folder whose contents are confirmed.
   */
  ghost predicate Blocked(t: Tree, node: Path, rest: seq<string>)
    requires node in t
  {
    var k := FirstMissing(t, node, rest);
    var at := node + rest[..k];
    k < |rest| && (t[at].ftype != Dir || t[at].state == FolderContentsLoaded)
  }

  /** The node a successful walk returns is in the tree it leaves: the known target or the last stub attached. */
  lemma {:induction false} WalkFoundIsKnown(t: Tree, ls: set<Path>, bf: set<Path>, node: Path, rest: seq<string>, folder: bool)
    requires node in t
    ensures var o := Walk(t, ls, bf, node, rest, folder);
      o.found.Some? ==> o.found.value in o.tree
    decreases |rest|
  {
    if rest != [] {
      var child := node + [rest[0]];
      if child in t {
        WalkFoundIsKnown(t, ls, bf, child, rest[1..], folder);
      } else if !(t[node].ftype != Dir || t[node].state == FolderContentsLoaded) {
        WalkFoundIsKnown(t[child := StubData(|rest| == 1, folder)], ls, bf, child, rest[1..], folder);
      }
    }
  }

  /** A walk that succeeds ends at the requested path. */
  lemma {:induction false} WalkFindsTarget(t: Tree, ls: set<Path>, bf: set<Path>, node: Path, rest: seq<string>, folder: bool)
    requires node in t
    ensures Walk(t, ls, bf, node, rest, folder).found.Some? ==>
              Walk(t, ls, bf, node, rest, folder).found.value == node + rest
    decreases |rest|
  {
    if rest != [] {
      var child := node + [rest[0]];
      assert child + rest[1..] == node + rest;
      if child in t {
        WalkFindsTarget(t, ls, bf, child, rest[1..], folder);
      } else if !(t[node].ftype != Dir || t[node].state == FolderContentsLoaded) {
        WalkFindsTarget(t[child := StubData(|rest| == 1, folder)], ls, bf, child, rest[1..], folder);
      }
    }
  }

  /**
   * The walk keeps the tree well formed, changes no node it found, and every
   * node it adds is a stub strictly below node on the way to node + rest:
   * a folder, except a file at the end of a file path, of size 0.
   */
  lemma {:induction false} WalkAddsOnlyStubs(t: Tree, ls: set<Path>, bf: set<Path>, node: Path, rest: seq<string>, folder: bool)
    requires ValidTree(t) && node in t
    ensures var o := Walk(t, ls, bf, node, rest, folder);
      && ValidTree(o.tree)
      && (forall p :: p in t ==> p in o.tree && o.tree[p] == t[p])
      && (forall p :: p in o.tree && p !in t ==>
            node < p && p <= node + rest && o.tree[p] == StubData(p == node + rest, folder))
    decreases |rest|
  {
    if rest != [] {
      var child := node + [rest[0]];
      assert child + rest[1..] == node + rest;
      if child in t {
        WalkAddsOnlyStubs(t, ls, bf, child, rest[1..], folder);
      } else if !(t[node].ftype != Dir || t[node].state == FolderContentsLoaded) {
        var t' := t[child := StubData(|rest| == 1, folder)];
        assert Parent(child) == node;
        assert ValidTree(t');
        WalkAddsOnlyStubs(t', ls, bf, child, rest[1..], folder);
        assert child == node + rest <==> |rest| == 1;
        assert node < child;
      }
    }
  }

  /**
   * Below a node that has no descendants yet and can still take a child
   * (a stub just attached), the walk cannot be refused.
   */
  lemma {:induction false} WalkBelowStubSucceeds(t: Tree, ls: set<Path>, bf: set<Path>, node: Path, rest: seq<string>, folder: bool)
    requires node in t
    requires forall p :: p in t ==> !(node < p)
    requires rest != [] ==> t[node].ftype == Dir && t[node].state == FolderSpeculateIdle
    ensures Walk(t, ls, bf, node, rest, folder).found.Some?
    decreases |rest|
  {
    if rest != [] {
      var child := node + [rest[0]];
      assert node < child;
      var t' := t[child := StubData(|rest| == 1, folder)];
      assert forall p :: p in t' ==> !(child < p);
      WalkBelowStubSucceeds(t', ls, bf, child, rest[1..], folder);
    }
  }

  /**
   * The walk returns no node exactly when it is refused at the first missing
   * segment, and a refused walk attaches no stub and dispatches nothing.
   */
  lemma {:induction false} WalkRefusedIffBlocked(t: Tree, ls: set<Path>, bf: set<Path>, node: Path, rest: seq<string>, folder: bool)
    requires ValidTree(t) && node in t
    ensures var o := Walk(t, ls, bf, node, rest, folder);
      && (o.found.None? <==> Blocked(t, node, rest))
      && (o.found.None? ==> o.tree == t && o.asks == [])
    decreases |rest|
  {
    if rest != [] {
      var child := node + [rest[0]];
      if child in t {
        WalkRefusedIffBlocked(t, ls, bf, child, rest[1..], folder);
        var k := FirstMissing(t, child, rest[1..]);
        assert child + rest[1..][..k] == node + rest[..k + 1];
      } else {
        assert node + rest[..0] == node;
        if !(t[node].ftype != Dir || t[node].state == FolderContentsLoaded) {
          var t' := t[child := StubData(|rest| == 1, folder)];
          forall p | p in t'
            ensures !(child < p)
          {
            if p != child && child < p {
              assert p[..|child|] == child;
              AncestorsInTree(t, p, |child|);
            }
          }
          WalkBelowStubSucceeds(t', ls, bf, child, rest[1..], folder);
        }
      }
    }
  }

  /**
   * Confirmed nodes win over speculation: when node + rest is already known,
   * the walk ends there, attaches nothing and asks only for the final
   * listing or buffer.
   */
  lemma {:induction false} WalkToKnownNode(t: Tree, ls: set<Path>, bf: set<Path>, node: Path, rest: seq<string>, folder: bool)
    requires ValidTree(t) && node in t && node + rest in t
    ensures Walk(t, ls, bf, node, rest, folder) == Outcome(Some(node + rest), t, FinalAsks(ls, bf, node + rest, folder))
    decreases |rest|
  {
    if rest == [] {
      assert node + rest == node;
    } else {
      var child := node + [rest[0]];
      assert (node + rest)[..|child|] == child;
      AncestorsInTree(t, node + rest, |child|);
      assert child + rest[1..] == node + rest;
      WalkToKnownNode(t, ls, bf, child, rest[1..], folder);
    }
  }

  /**
   * Listing tasks on nodes above node do not change the walk from node: it
   * only asks about node and the nodes below it.
   */
  lemma {:induction false} WalkIgnoresShallowListing(t: Tree, ls: set<Path>, q: Path, bf: set<Path>, node: Path, rest: seq<string>, folder: bool)
    requires node in t && |q| < |node|
    ensures Walk(t, ls + {q}, bf, node, rest, folder) == Walk(t, ls, bf, node, rest, folder)
    decreases |rest|
  {
    if rest != [] {
      var child := node + [rest[0]];
      if child in t {
        WalkIgnoresShallowListing(t, ls, q, bf, child, rest[1..], folder);
      } else if !(t[node].ftype != Dir || t[node].state == FolderContentsLoaded) {
        WalkIgnoresShallowListing(t[child := StubData(|rest| == 1, folder)], ls, q, bf, child, rest[1..], folder);
      }
    }
  }

  /**
   * Past a missing segment, the walk is the stub's listing request followed
   * by the walk from the new stub, and a listing task attached to node
   * meanwhile does not change that remainder.
   */
  lemma WalkPastStub(t: Tree, ls: set<Path>, ls': set<Path>, bf: set<Path>, node: Path, rest: seq<string>, folder: bool)
    requires node in t && rest != [] && node + [rest[0]] !in t
    requires t[node].ftype == Dir && t[node].state != FolderContentsLoaded
    requires ls' == ls || ls' == ls + {node}
    ensures var next := Walk(t[node + [rest[0]] := StubData(|rest| == 1, folder)], ls', bf, node + [rest[0]], rest[1..], folder);
      Walk(t, ls, bf, node, rest, folder) == next.(asks := StubRefresh(t, ls, node) + next.asks)
  {
    if ls' != ls {
      WalkIgnoresShallowListing(t[node + [rest[0]] := StubData(|rest| == 1, folder)], ls, node, bf, node + [rest[0]], rest[1..], folder);
    }
  }

  /**
   * On the walk to full, the folder full[..j] is listed on the way: its
   * next segment is missing, it has no listing task, and it is a stub the
   * walk attached or a known folder whose state calls for a refresh.
   */
  ghost predicate ListedOnWay(t: Tree, ls: set<Path>, full: Path, j: nat)
    requires j < |full|
  {
    && full[..j + 1] !in t && full[..j] !in ls
    && (full[..j] !in t || NeedsRefresh(t[full[..j]].state))
  }

  /** Attaching a folder stub at full[..k] does not change which deeper folders are listed on the way. */
  lemma StubKeepsListedOnWay(t: Tree, ls: set<Path>, full: Path, k: nat, folder: bool, j: nat)
    requires k <= j < |full| && full[..k] !in t
    ensures ListedOnWay(t[full[..k] := StubData(k == |full|, folder)], ls, full, j) <==> ListedOnWay(t, ls, full, j)
  {
    assert |full[..j + 1]| != k;
    if j != k {
      assert |full[..j]| != k;
    }
  }

  /** The request r lists a folder listed on the way to full, at depth from or deeper. */
  ghost predicate ListsOnWay(t: Tree, ls: set<Path>, full: Path, from: nat, r: Request)
  {
    && r.RemoteLs? && from <= |r.path| < |full| && r.path == full[..|r.path|]
    && ListedOnWay(t, ls, full, |r.path|)
  }

  /**
   * The listings a walk to full dispatches on the way, from depth from
   * down: one of each folder listed on the way, shallowest first.
   */
  ghost function OnWayListings(t: Tree, ls: set<Path>, full: Path, from: nat): seq<Request>
    decreases |full| - from
  {
    if from >= |full| then []
    else (if ListedOnWay(t, ls, full, from) then [RemoteLs(full[..from])] else []) + OnWayListings(t, ls, full, from + 1)
  }

  /** Each of them lists a folder listed on the way, at depth from or deeper. */
  lemma {:induction false} OnWayListingsAreOnWay(t: Tree, ls: set<Path>, full: Path, from: nat)
    ensures forall r :: r in OnWayListings(t, ls, full, from) ==> ListsOnWay(t, ls, full, from, r)
    decreases |full| - from
  {
    if from < |full| {
      OnWayListingsAreOnWay(t, ls, full, from + 1);
      var h := if ListedOnWay(t, ls, full, from) then [RemoteLs(full[..from])] else [];
      var w' := OnWayListings(t, ls, full, from + 1);
      var w := h + w';
      assert OnWayListings(t, ls, full, from) == w;
      forall r | r in w
        ensures ListsOnWay(t, ls, full, from, r)
      {
        if r !in h {
          assert r in w';
        }
      }
    }
  }

  /** Each of them lists a folder at depth from or deeper. */
  lemma {:induction false} OnWayListingsDeep(t: Tree, ls: set<Path>, full: Path, from: nat)
    ensures forall r :: r in OnWayListings(t, ls, full, from) ==> r.RemoteLs? && from <= |r.path|
    decreases |full| - from
  {
    if from < |full| {
      OnWayListingsDeep(t, ls, full, from + 1);
    }
  }

  /** Every request of w is a listing, each of a deeper folder than the one before. */
  ghost predicate DeeperEachTime(w: seq<Request>)
  {
    forall i, k :: 0 <= i < k < |w| ==> w[i].RemoteLs? && w[k].RemoteLs? && |w[i].path| < |w[k].path|
  }

  /** They come shallowest first, so no folder is listed twice. */
  lemma {:induction false} OnWayListingsInOrder(t: Tree, ls: set<Path>, full: Path, from: nat)
    ensures DeeperEachTime(OnWayListings(t, ls, full, from))
    decreases |full| - from
  {
    if from < |full| {
      OnWayListingsInOrder(t, ls, full, from + 1);
      var w' := OnWayListings(t, ls, full, from + 1);
      if ListedOnWay(t, ls, full, from) {
        OnWayListingsDeep(t, ls, full, from + 1);
        ListingBeforeDeeper(RemoteLs(full[..from]), w');
      } else {
        assert OnWayListings(t, ls, full, from) == w';
      }
    }
  }

  /** A listing of a shallower folder put before listings that go deeper each time keeps them going deeper. */
  lemma ListingBeforeDeeper(r: Request, w: seq<Request>)
    requires r.RemoteLs? && DeeperEachTime(w)
    requires forall q :: q in w ==> q.RemoteLs? && |r.path| < |q.path|
    ensures DeeperEachTime([r] + w)
  {
    var w1 := [r] + w;
    forall i, k | 0 <= i < k < |w1|
      ensures w1[i].RemoteLs? && w1[k].RemoteLs? && |w1[i].path| < |w1[k].path|
    {
      assert w1[k] == w[k - 1] && w[k - 1] in w;
      if i > 0 {
        assert w1[i] == w[i - 1];
      }
    }
  }

  /** Every folder listed on the way, at depth from or deeper, is among them. */
  lemma {:induction false} OnWayListingsComplete(t: Tree, ls: set<Path>, full: Path, from: nat)
    ensures forall j :: from <= j < |full| && ListedOnWay(t, ls, full, j) ==>
              RemoteLs(full[..j]) in OnWayListings(t, ls, full, from)
    decreases |full| - from
  {
    if from < |full| {
      OnWayListingsComplete(t, ls, full, from + 1);
    }
  }

  /** Attaching a folder stub at full[..k] leaves the listings from depth k down as they were. */
  lemma {:induction false} OnWayListingsBelowStub(t: Tree, ls: set<Path>, full: Path, k: nat, folder: bool, from: nat)
    requires k <= from && k <= |full| && full[..k] !in t
    ensures OnWayListings(t[full[..k] := StubData(k == |full|, folder)], ls, full, from) == OnWayListings(t, ls, full, from)
    decreases |full| - from
  {
    if from < |full| {
      StubKeepsListedOnWay(t, ls, full, k, folder, from);
      OnWayListingsBelowStub(t, ls, full, k, folder, from + 1);
    }
  }

  /**
   * The requests of a successful walk are exactly the listings on the way
   * to the target, from node down, followed by the final folder refresh or
   * buffer fetch of the target.
   */
  lemma {:induction false} WalkAsks(t: Tree, ls: set<Path>, bf: set<Path>, node: Path, rest: seq<string>, folder: bool)
    requires node in t
    ensures var o := Walk(t, ls, bf, node, rest, folder);
      o.found.Some? ==> o.asks == OnWayListings(t, ls, node + rest, |node|) + FinalAsks(ls, bf, node + rest, folder)
    decreases |rest|
  {
    var full := node + rest;
    if rest == [] {
      assert full == node;
    } else {
      var child := node + [rest[0]];
      assert full == child + rest[1..];
      assert full[..|node|] == node && full[..|node| + 1] == child;
      if child in t {
        WalkAsks(t, ls, bf, child, rest[1..], folder);
        assert !ListedOnWay(t, ls, full, |node|);
        assert OnWayListings(t, ls, full, |node|) == [] + OnWayListings(t, ls, full, |node| + 1);
      } else if t[node].ftype == Dir && t[node].state != FolderContentsLoaded {
        var t' := t[child := StubData(|rest| == 1, folder)];
        WalkAsks(t', ls, bf, child, rest[1..], folder);
        assert (|rest| == 1) == (|node| + 1 == |full|);
        OnWayListingsBelowStub(t, ls, full, |node| + 1, folder, |node| + 1);
        var sr := StubRefresh(t, ls, node);
        assert sr == if ListedOnWay(t, ls, full, |node|) then [RemoteLs(full[..|node|])] else [];
        assert OnWayListings(t, ls, full, |node|) == sr + OnWayListings(t, ls, full, |node| + 1);
        AppendAssoc(sr, OnWayListings(t, ls, full, |node| + 1), FinalAsks(ls, bf, full, folder));
      }
    }
  }

  /**
   * With only the root known (its own listing in flight), resolving the file
   * /docs/report.txt attaches a folder stub docs and a file stub report.txt,
   * re-lists docs and fetches the buffer of report.txt.
   */
  lemma SpeculateFileUnderFreshRoot()
    ensures var o := Walk(map[RootPath := RootData], {RootPath}, {}, RootPath, ["docs", "report.txt"], false);
      && o.found == Some(["docs", "report.txt"])
      && o.tree == map[RootPath := RootData,
                       ["docs"] := NodeData(Dir, 0, FolderSpeculateIdle),
                       ["docs", "report.txt"] := NodeData(File, 0, OtherState)]
      && o.asks == [RemoteLs(["docs"]), DownloadBuffer(["docs", "report.txt"])]
  {
    var t0: Tree := map[RootPath := RootData];
    assert RootPath + ["docs"] == ["docs"];
    assert ["docs"] !in t0;
    var t1 := t0[["docs"] := StubData(false, false)];
    assert ["docs"] + ["report.txt"] == ["docs", "report.txt"];
    assert ["docs", "report.txt"] !in t1;
  }

  /**
   * Confirmed absence is authoritative: a folder whose contents are loaded
   * and that lacks the next segment refuses the walk.
   */
  lemma SpeculateUnderLoadedFolderRefused(t: Tree, ls: set<Path>, bf: set<Path>, node: Path, name: string, more: seq<string>, folder: bool)
    requires node in t && t[node].state == FolderContentsLoaded && node + [name] !in t
    ensures Walk(t, ls, bf, node, [name] + more, folder) == Outcome(None, t, [])
  {
    assert ([name] + more)[0] == name;
  }
}
