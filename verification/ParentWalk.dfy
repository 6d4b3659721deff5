/** The walk from a proof through its declared parents back to a proof without one. */
module ParentWalk {
  import opened Wrappers

  type Id = string

  datatype Verified = Verified(capsuleId: Id, org: string, signature: bool, canonicalHash: bool, keyVersion: string)

  datatype SelfFailure = SelfFailure(capsuleId: Id, reason: string)

  /** A proof as the walk sees it; `verdict` is what checking it alone yields. */
  datatype Node = Node(capsuleId: Id, org: string, parent: Option<Id>, verdict: Result<Verified, SelfFailure>)

  datatype WalkError =
    | SelfFailed(failure: SelfFailure)
    | ParentNotFound(id: Id)
    | ParentIdMismatch(declared: Id, actual: Id)
    | CrossCustomerLinkage(child: string, parent: string)
    | CycleDetected(id: Id)
    | DepthExceeded(max: nat)

  datatype ChainVerification = Genesis(v: Verified) | Linked(own: Verified, parent: ChainVerification)
  {
    function Leaf(): Verified {
      if Genesis? then v else own
    }

    function Depth(): nat {
      if Genesis? then 1 else 1 + parent.Depth()
    }

    /** Leaf first. */
    function Path(): seq<Verified> {
      if Genesis? then [v] else [own] + parent.Path()
    }

    method Flatten() returns (out: seq<Verified>)
      ensures out == Path()
    {
      out := [];
      var cur := this;
      while cur.Linked?
        invariant out + cur.Path() == Path()
        decreases cur
      {
        out := out + [cur.own];
        cur := cur.parent;
      }
      out := out + [cur.v];
    }
  }

  /** How a parent is looked up: any answers, which may depend on what was asked before. */
  type Answers = (seq<Id>, Id) -> Result<Node, WalkError>

  class Fetcher {
    const answers: Answers
    var asked: seq<Id>

    constructor (answers: Answers)
      ensures this.answers == answers && asked == []
    {
      this.answers, asked := answers, [];
    }

    method Fetch(id: Id) returns (r: Result<Node, WalkError>)
      modifies this
      ensures asked == old(asked) + [id] && r == answers(old(asked), id)
    {
      r := answers(asked, id);
      asked := asked + [id];
    }
  }

  // ----- paths --------------------------------------------------------------------------

  /** `next` is what looking up the parent of `n` gives, it is the one `n` names, it is new to
      the walk, and it belongs to the same customer. */
  predicate Link(answers: Answers, asked: seq<Id>, visited: set<Id>, n: Node, next: Node) {
    && n.verdict.Ok? && n.parent == Some(next.capsuleId) && next.capsuleId !in visited
    && answers(asked, next.capsuleId) == Ok(next) && n.verdict.value.org == next.org
  }

  /** A path from its first node to one that verifies and names no parent. */
  predicate Complete(answers: Answers, asked: seq<Id>, visited: set<Id>, path: seq<Node>)
    decreases |path|
  {
    path != [] &&
    if |path| == 1 then path[0].verdict.Ok? && path[0].parent.None?
    else
      Link(answers, asked, visited, path[0], path[1]) &&
      Complete(answers, asked + [path[1].capsuleId], visited + {path[1].capsuleId}, path[1..])
  }

  /** Why the walk cannot go on from `n` when `left` more nodes are allowed. */
  predicate Stops(answers: Answers, asked: seq<Id>, visited: set<Id>, n: Node, left: int, max: nat, e: WalkError) {
    if n.verdict.Err? then e == SelfFailed(n.verdict.error)
    else
      n.parent.Some? &&
      var id := n.parent.value;
      if left <= 0 then e == DepthExceeded(max)
      else if id in visited then e == CycleDetected(id)
      else
        var next := answers(asked, id);
        if next.Err? then e == next.error
        else if next.value.capsuleId != id then e == ParentIdMismatch(id, next.value.capsuleId)
        else n.verdict.value.org != next.value.org && e == CrossCustomerLinkage(n.verdict.value.org, next.value.org)
  }

  /** A path whose last node is where the walk stops, for the reason `e`. */
  predicate Stuck(
    answers: Answers, asked: seq<Id>, visited: set<Id>, path: seq<Node>, left: int, max: nat, e: WalkError)
    decreases |path|
  {
    path != [] &&
    if |path| == 1 then Stops(answers, asked, visited, path[0], left, max, e)
    else
      left > 0 && Link(answers, asked, visited, path[0], path[1]) &&
      Stuck(answers, asked + [path[1].capsuleId], visited + {path[1].capsuleId}, path[1..], left - 1, max, e)
  }

  function Verdicts(path: seq<Node>): seq<Verified>
    requires forall i | 0 <= i < |path| :: path[i].verdict.Ok?
  {
    seq(|path|, i requires 0 <= i < |path| => path[i].verdict.value)
  }

  function Ids(path: seq<Node>): seq<Id> {
    seq(|path|, i requires 0 <= i < |path| => path[i].capsuleId)
  }

  lemma {:induction false} CompleteVerifies(answers: Answers, asked: seq<Id>, visited: set<Id>, path: seq<Node>)
    requires Complete(answers, asked, visited, path)
    ensures forall i | 0 <= i < |path| :: path[i].verdict.Ok?
    decreases |path|
  {
    if |path| > 1 {
      CompleteVerifies(answers, asked + [path[1].capsuleId], visited + {path[1].capsuleId}, path[1..]);
      assert forall i | 1 <= i < |path| :: path[i] == path[1..][i - 1];
    }
  }

  /** A node from which the walk stops does not begin a complete path that is short enough. */
  lemma {:induction false} StuckIsNotComplete(
    answers: Answers, asked: seq<Id>, visited: set<Id>, path: seq<Node>, left: int, max: nat, e: WalkError,
    other: seq<Node>)
    requires Stuck(answers, asked, visited, path, left, max, e) && Complete(answers, asked, visited, other)
    requires path[0] == other[0]
    ensures |other| > 1 && |other| > left + 1
    decreases |path|
  {
    if |path| > 1 && |other| > 1 {
      var id := path[1].capsuleId;
      StuckIsNotComplete(answers, asked + [id], visited + {id}, path[1..], left - 1, max, e, other[1..]);
    }
  }

  // ----- the walk -----------------------------------------------------------------------

  /** The state one walk carries down. */
  class Walk {
    var visited: set<Id>
    var cache: map<Id, ChainVerification>

    ghost predicate Valid()
      reads this
    {
      cache.Keys <= visited
    }

    constructor (leaf: Id)
      ensures Valid() && visited == {leaf}
    {
      visited, cache := {leaf}, map[];
    }

    /** One step down. The ghost result is the path walked: to the end when the walk succeeds,
        to where it stops when it does not. */
    method Down(node: Node, fetcher: Fetcher, max: nat, depth: nat)
      returns (r: Result<ChainVerification, WalkError>, ghost path: seq<Node>)
      requires Valid()
      modifies this, fetcher
      ensures Valid() && old(visited) <= visited
      ensures path != [] && path[0] == node
      ensures r.Ok? ==>
                Complete(fetcher.answers, old(fetcher.asked), old(visited), path) &&
                (|path| == 1 || |path| + depth <= max + 1) &&
                (forall i | 0 <= i < |path| :: path[i].verdict.Ok?) && r.value.Path() == Verdicts(path) &&
                fetcher.asked == old(fetcher.asked) + Ids(path[1..])
      ensures r.Err? ==> Stuck(fetcher.answers, old(fetcher.asked), old(visited), path, max - depth, max, r.error)
      decreases max - depth
    {
      path := [node];
      if node.verdict.Err? {
        return Err(SelfFailed(node.verdict.error)), path;
      }
      var own := node.verdict.value;
      if node.parent.None? {
        assert Ids(path[1..]) == [];
        return Ok(Genesis(own)), path;
      }
      var id := node.parent.value;
      if depth >= max {
        return Err(DepthExceeded(max)), path;
      }
      if id in visited {
        return Err(CycleDetected(id)), path;
      }
      if id in cache {
        assert false;
      }
      var fetched := fetcher.Fetch(id);
      if fetched.Err? {
        return Err(fetched.error), path;
      }
      var parent := fetched.value;
      if parent.capsuleId != id {
        return Err(ParentIdMismatch(id, parent.capsuleId)), path;
      }
      if own.org != parent.org {
        return Err(CrossCustomerLinkage(own.org, parent.org)), path;
      }
      visited := visited + {id};
      ghost var rest;
      r, rest := Down(parent, fetcher, max, depth + 1);
      path := [node] + rest;
      assert path[1..] == rest;
      if r.Ok? {
        cache := cache[id := r.value];
        r := Ok(Linked(own, r.value));
      }
    }
  }

  /** A walk that started over and has not been anywhere but at its leaf. */
  predicate Reaches(answers: Answers, leaf: Node, path: seq<Node>) {
    Complete(answers, [], {leaf.capsuleId}, path) && path[0] == leaf
  }

  /** The walk succeeds exactly when some path of at most `max` nodes (one, if `max` is zero)
      reaches a proof without a parent; the result is that path and each parent on it was asked
      for once, in order. */
  method VerifyChain(leaf: Node, answers: Answers, max: nat)
    returns (r: Result<ChainVerification, WalkError>, fetcher: Fetcher, ghost path: seq<Node>)
    ensures path != [] && path[0] == leaf && fetcher.answers == answers
    ensures r.Ok? <==> exists p :: Reaches(answers, leaf, p) && |p| <= if max == 0 then 1 else max
    ensures r.Ok? ==>
              Reaches(answers, leaf, path) && (forall i | 0 <= i < |path| :: path[i].verdict.Ok?) &&
              r.value.Path() == Verdicts(path) && fetcher.asked == Ids(path[1..])
    ensures r.Err? ==> Stuck(answers, [], {leaf.capsuleId}, path, max - 1, max, r.error)
  {
    fetcher := new Fetcher(answers);
    var walk := new Walk(leaf.capsuleId);
    r, path := walk.Down(leaf, fetcher, max, 1);
    if r.Ok? {
      assert Reaches(answers, leaf, path);
    } else {
      forall p | Reaches(answers, leaf, p) ensures |p| > 1 && |p| > max {
        StuckIsNotComplete(answers, [], {leaf.capsuleId}, path, max - 1, max, r.error, p);
      }
    }
  }

  // ----- what a path says ---------------------------------------------------------------

  /** Step `i` of a path, told by position. */
  predicate StepHolds(answers: Answers, asked: seq<Id>, visited: set<Id>, path: seq<Node>, i: nat)
    requires i + 1 < |path|
  {
    Link(answers, asked + Ids(path[1..i + 1]), visited + Passed(path, i), path[i], path[i + 1])
  }

  /** The parents met in the first `i` steps. */
  function Passed(path: seq<Node>, i: nat): set<Id>
    requires i < |path|
  {
    set k | 1 <= k <= i :: path[k].capsuleId
  }

  predicate AllSteps(answers: Answers, asked: seq<Id>, visited: set<Id>, path: seq<Node>) {
    forall i | 0 <= i < |path| - 1 :: StepHolds(answers, asked, visited, path, i)
  }

  /** A path is complete exactly when it ends at a verified proof without a parent and every
      step holds where it stands. */
  lemma {:induction false} CompleteMeans(answers: Answers, asked: seq<Id>, visited: set<Id>, path: seq<Node>)
    requires path != []
    ensures Complete(answers, asked, visited, path) <==>
            path[|path| - 1].verdict.Ok? && path[|path| - 1].parent.None? && AllSteps(answers, asked, visited, path)
    decreases |path|
  {
    if |path| > 1 {
      var id := path[1].capsuleId;
      CompleteMeans(answers, asked + [id], visited + {id}, path[1..]);
      StepsSplit(answers, asked, visited, path);
    }
  }

  lemma StepsSplit(answers: Answers, asked: seq<Id>, visited: set<Id>, path: seq<Node>)
    requires |path| > 1
    ensures AllSteps(answers, asked, visited, path) <==>
            Link(answers, asked, visited, path[0], path[1]) &&
            AllSteps(answers, asked + [path[1].capsuleId], visited + {path[1].capsuleId}, path[1..])
  {
    var id, rest := path[1].capsuleId, path[1..];
    FirstStep(answers, asked, visited, path);
    if AllSteps(answers, asked, visited, path) {
      forall i | 0 <= i < |rest| - 1 ensures StepHolds(answers, asked + [id], visited + {id}, rest, i) {
        LaterStep(answers, asked, visited, path, i);
      }
    }
    if StepHolds(answers, asked, visited, path, 0) && AllSteps(answers, asked + [id], visited + {id}, rest) {
      forall i | 0 <= i < |path| - 1 ensures StepHolds(answers, asked, visited, path, i) {
        if i > 0 {
          LaterStep(answers, asked, visited, path, i - 1);
        }
      }
    }
  }

  lemma FirstStep(answers: Answers, asked: seq<Id>, visited: set<Id>, path: seq<Node>)
    requires |path| > 1
    ensures StepHolds(answers, asked, visited, path, 0) <==> Link(answers, asked, visited, path[0], path[1])
  {
    assert asked + Ids(path[1..1]) == asked && visited + Passed(path, 0) == visited;
  }

  lemma LaterStep(answers: Answers, asked: seq<Id>, visited: set<Id>, path: seq<Node>, i: nat)
    requires i + 2 < |path|
    ensures var id := path[1].capsuleId;
            StepHolds(answers, asked + [id], visited + {id}, path[1..], i) <==>
            StepHolds(answers, asked, visited, path, i + 1)
  {
    var id, rest := path[1].capsuleId, path[1..];
    assert path[1..i + 2] == [path[1]] + rest[1..i + 1];
    assert asked + [id] + Ids(rest[1..i + 1]) == asked + Ids(path[1..i + 2]);
    assert forall k | 1 <= k <= i :: rest[k] == path[k + 1];
    assert visited + {id} + Passed(rest, i) == visited + Passed(path, i + 1) by {
      forall x | x in Passed(path, i + 1) ensures x in {id} + Passed(rest, i) {
        var k :| 1 <= k <= i + 1 && path[k].capsuleId == x;
        assert k > 1 ==> rest[k - 1].capsuleId == x;
      }
    }
  }

  /** Along a successful walk every proof verifies, names the next, belongs by its own check to
      the customer of the next, and is met once; and all belong to one customer exactly if each
      proof but the last belongs by its own check to the customer it carries. */
  lemma WalkedPath(answers: Answers, leaf: Node, path: seq<Node>)
    requires Reaches(answers, leaf, path)
    ensures forall i | 0 <= i < |path| :: path[i].verdict.Ok?
    ensures forall i | 0 <= i < |path| - 1 ::
              path[i].parent == Some(path[i + 1].capsuleId) && path[i].verdict.value.org == path[i + 1].org
    ensures forall i, j | 0 <= i < j < |path| :: path[i].capsuleId != path[j].capsuleId
    ensures path[|path| - 1].parent.None?
    ensures (forall i | 0 <= i < |path| :: path[i].org == leaf.org) <==>
              forall i | 0 <= i < |path| - 1 :: path[i].verdict.value.org == path[i].org
  {
    CompleteMeans(answers, [], {leaf.capsuleId}, path);
    CompleteVerifies(answers, [], {leaf.capsuleId}, path);
    forall i, j | 0 <= i < j < |path| ensures path[i].capsuleId != path[j].capsuleId {
      assert StepHolds(answers, [], {leaf.capsuleId}, path, j - 1);
      assert i > 0 ==> path[i].capsuleId in Passed(path, j - 1);
    }
    forall i | 0 <= i < |path| - 1
      ensures path[i].parent == Some(path[i + 1].capsuleId) && path[i].verdict.value.org == path[i + 1].org
    {
      assert StepHolds(answers, [], {leaf.capsuleId}, path, i);
    }
    OneCustomer(path);
  }

  lemma {:induction false} OneCustomer(path: seq<Node>)
    requires path != [] && forall i | 0 <= i < |path| - 1 :: path[i].verdict.Ok?
    requires forall i | 0 <= i < |path| - 1 :: path[i].verdict.value.org == path[i + 1].org
    ensures (forall i | 0 <= i < |path| :: path[i].org == path[0].org) <==>
            forall i | 0 <= i < |path| - 1 :: path[i].verdict.value.org == path[i].org
  {
    if forall i | 0 <= i < |path| :: path[i].org == path[0].org {
      forall i | 0 <= i < |path| - 1 ensures path[i].verdict.value.org == path[i].org {
        assert path[i + 1].org == path[0].org;
      }
    } else if forall i | 0 <= i < |path| - 1 :: path[i].verdict.value.org == path[i].org {
      forall i | 0 <= i < |path| ensures path[i].org == path[0].org {
        OneOrg(path, i);
      }
    }
  }

  lemma {:induction false} OneOrg(path: seq<Node>, i: nat)
    requires i < |path| && forall k | 0 <= k < |path| - 1 :: path[k].verdict.Ok?
    requires forall k | 0 <= k < |path| - 1 ::
               path[k].verdict.value.org == path[k].org && path[k].verdict.value.org == path[k + 1].org
    ensures path[i].org == path[0].org
  {
    if i > 0 {
      OneOrg(path, i - 1);
      assert path[i - 1].verdict.value.org == path[i].org;
    }
  }

  // ----- why a walk fails ---------------------------------------------------------------

  /** What is wrong at the last node of `path` when the walk may take `max` nodes. */
  predicate FailsFor(answers: Answers, path: seq<Node>, max: nat, e: WalkError)
    requires path != []
  {
    var last := path[|path| - 1];
    if last.verdict.Err? then e == SelfFailed(last.verdict.error)
    else
      last.parent.Some? &&
      var id := last.parent.value;
      if |path| >= max then e == DepthExceeded(max)
      else if id in Ids(path) then e == CycleDetected(id)
      else
        match answers(Ids(path[1..]), id)
        case Err(refusal) => e == refusal
        case Ok(next) =>
          if next.capsuleId != id then e == ParentIdMismatch(id, next.capsuleId)
          else last.verdict.value.org != next.org && e == CrossCustomerLinkage(last.verdict.value.org, next.org)
  }

  lemma PassedNext(path: seq<Node>)
    requires |path| > 1
    ensures Passed(path, |path| - 1) == {path[1].capsuleId} + Passed(path[1..], |path| - 2)
    ensures [path[1].capsuleId] + Ids(path[1..][1..]) == Ids(path[1..])
  {
    var rest := path[1..];
    var all, later := Passed(path, |path| - 1), Passed(rest, |path| - 2);
    forall x | x in all ensures x in {path[1].capsuleId} + later {
      var k :| 1 <= k <= |path| - 1 && path[k].capsuleId == x;
      assert k > 1 ==> rest[k - 1].capsuleId == x;
    }
    forall x | x in later ensures x in all {
      var k :| 1 <= k <= |path| - 2 && rest[k].capsuleId == x;
      assert path[k + 1].capsuleId == x;
    }
    assert path[1].capsuleId in all;
  }

  lemma {:induction false} StuckAtLast(
    answers: Answers, asked: seq<Id>, visited: set<Id>, path: seq<Node>, left: int, max: nat, e: WalkError)
    requires Stuck(answers, asked, visited, path, left, max, e)
    ensures Stops(answers, asked + Ids(path[1..]), visited + Passed(path, |path| - 1), path[|path| - 1],
                  left - (|path| - 1), max, e)
    decreases |path|
  {
    if |path| == 1 {
      assert asked + Ids(path[1..]) == asked && visited + Passed(path, 0) == visited;
    } else {
      var id := path[1].capsuleId;
      StuckAtLast(answers, asked + [id], visited + {id}, path[1..], left - 1, max, e);
      PassedNext(path);
      assert asked + [id] + Ids(path[1..][1..]) == asked + Ids(path[1..]);
      assert visited + {id} + Passed(path[1..], |path| - 2) == visited + Passed(path, |path| - 1);
    }
  }

  lemma PassedAreIds(path: seq<Node>, id: Id)
    requires path != []
    ensures id in {path[0].capsuleId} + Passed(path, |path| - 1) <==> id in Ids(path)
  {
    if id in Ids(path) {
      var k :| 0 <= k < |path| && Ids(path)[k] == id;
      assert path[k].capsuleId == id;
    }
    if id in Passed(path, |path| - 1) {
      var k :| 1 <= k <= |path| - 1 && path[k].capsuleId == id;
      assert Ids(path)[k] == id;
    }
    assert Ids(path)[0] == path[0].capsuleId;
  }

  lemma {:induction false} StuckIsShort(
    answers: Answers, asked: seq<Id>, visited: set<Id>, path: seq<Node>, left: int, max: nat, e: WalkError)
    requires Stuck(answers, asked, visited, path, left, max, e)
    ensures |path| == 1 || |path| <= left + 1
    decreases |path|
  {
    if |path| > 1 {
      var id := path[1].capsuleId;
      StuckIsShort(answers, asked + [id], visited + {id}, path[1..], left - 1, max, e);
    }
  }

  /** A failed walk goes no further than it may and names what is wrong at the last node it
      reached: a bad proof, too many nodes, one met before, a refused or a wrong answer, or
      another customer, in this order. */
  lemma {:induction false} WalkFailsFor(answers: Answers, path: seq<Node>, max: nat, e: WalkError)
    requires path != [] && Stuck(answers, [], {path[0].capsuleId}, path, max - 1, max, e)
    ensures FailsFor(answers, path, max, e) && |path| <= if max == 0 then 1 else max
  {
    StuckIsShort(answers, [], {path[0].capsuleId}, path, max - 1, max, e);
    StuckAtLast(answers, [], {path[0].capsuleId}, path, max - 1, max, e);
    assert [] + Ids(path[1..]) == Ids(path[1..]);
    var last := path[|path| - 1];
    if last.verdict.Ok? {
      PassedAreIds(path, last.parent.value);
    }
  }

  /** The three views of a result agree. */
  lemma {:induction false} ViewsAgree(c: ChainVerification)
    ensures |c.Path()| == c.Depth() > 0 && c.Path()[0] == c.Leaf()
  {
    if c.Linked? {
      ViewsAgree(c.parent);
    }
  }
}
