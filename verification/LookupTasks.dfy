/** src/dht/task.cpp, src/dht/nodelookup.cpp and src/dht/announcetask.cpp: tasks that walk
    through the DHT by querying nodes and the nodes that those name. Node sets are ordered and
    compared by id alone, so they are maps from ids here. */
module LookupTasks {
  import opened Common

  type Id = int
  type Address = nat
  type NodeSet = map<Id, Address>
  datatype Node = Node(id: Id, addr: Address)

  const MAX_CONCURRENT_REQS: nat := 16

  /** std::set::insert: an element with the same id stays. */
  function Inserted(s: NodeSet, n: Node): (r: NodeSet)
    ensures Extends(r, s) && n.id in r
  {
    if n.id in s then s else s[n.id := n.addr]
  }

  function InsertedAll(s: NodeSet, nodes: seq<Node>): (r: NodeSet)
    ensures s.Keys <= r.Keys
    ensures forall i :: 0 <= i < |nodes| ==> nodes[i].id in r
    ensures From(r, s, nodes) && Extends(r, s)
    decreases |nodes|
  {
    if nodes == [] then s else InsertedAll(Inserted(s, nodes[0]), nodes[1..])
  }

  /** What was there stays as it was. */
  ghost predicate Extends(s: NodeSet, t: NodeSet)
  {
    forall k :: k in t ==> k in s && s[k] == t[k]
  }

  /** `asked` lists, in order and without repetition, the nodes of a node set. */
  ghost predicate Asked(asked: seq<Node>, visited: NodeSet)
  {
    && |asked| == |visited|
    && (forall i :: 0 <= i < |asked| ==> asked[i].id in visited && visited[asked[i].id] == asked[i].addr)
    && forall i, j :: 0 <= i < j < |asked| ==> asked[i].id != asked[j].id
  }

  /** The list names somebody who has not been asked. */
  ghost predicate AnyNew(todo: NodeSet, visited: NodeSet)
  {
    exists k :: k in todo && k !in visited
  }

  lemma AskOne(asked: seq<Node>, visited: NodeSet, n: Node)
    requires Asked(asked, visited) && n.id !in visited
    ensures Asked(asked + [n], Inserted(visited, n)) && |Inserted(visited, n)| == |visited| + 1
    ensures forall k :: k in Inserted(visited, n) <==> k in visited || k == n.id
    ensures forall k :: k in Inserted(visited, n) ==> Inserted(visited, n)[k] == if k == n.id then n.addr else visited[k]
    ensures |asked + [n]| == |asked| + 1
  {
  }

  /** Every node of `s` is one of `t`, with the same address, or one of the list. */
  ghost predicate From(s: NodeSet, t: NodeSet, nodes: seq<Node>)
  {
    forall k :: k in s ==> (k in t && s[k] == t[k]) || Node(k, s[k]) in nodes
  }

  ghost predicate FromEither(s: NodeSet, t: NodeSet, u: NodeSet)
  {
    forall k :: k in s ==> (k in t && s[k] == t[k]) || (k in u && s[k] == u[k])
  }

  ghost predicate FromList(s: NodeSet, t: NodeSet, u: NodeSet, nodes: seq<Node>)
  {
    forall k :: k in s ==> (k in t && s[k] == t[k]) || (k in u && s[k] == u[k]) || Node(k, s[k]) in nodes
  }

  /** The nodes from position `n` on were taken in the order of their ids, and before all of `todo`. */
  ghost predicate ClosestFirst(asked: seq<Node>, n: nat, todo: NodeSet)
  {
    && (forall i, j :: n <= i < j < |asked| ==> asked[i].id < asked[j].id)
    && forall i, k :: n <= i < |asked| && k in todo ==> asked[i].id < k
  }

  /** What asking the nodes of a list one after the other has led to, with `out` requests out. */
  ghost predicate Walked(todo0: NodeSet, visited0: NodeSet, asked0: seq<Node>, out0: nat,
                         todo: NodeSet, visited: NodeSet, asked: seq<Node>, out: nat)
  {
    && Asked(asked, visited) && asked0 <= asked
    && out0 <= out && |asked| - out == |asked0| - out0
    // every node that leaves the list has been asked, the closest first, and only nodes of the list are
    && (forall k :: k in todo0 ==> k in todo || k in visited)
    && (forall k :: k in visited0 ==> k in visited)
    && From(todo, todo0, []) && FromEither(visited, visited0, todo0)
    && ClosestFirst(asked, |asked0|, todo)
    && if out == out0 then visited == visited0 else AnyNew(todo0, visited0)
  }

  lemma WalkStarts(todo: NodeSet, visited: NodeSet, asked: seq<Node>, out: nat)
    requires Asked(asked, visited)
    ensures Walked(todo, visited, asked, out, todo, visited, asked, out)
  {
  }

  /** The next node of the list is asked, unless it has been asked before. */
  lemma WalkOn(todo0: NodeSet, visited0: NodeSet, asked0: seq<Node>, out0: nat,
               todo: NodeSet, visited: NodeSet, asked: seq<Node>, out: nat, n: Node)
    requires Walked(todo0, visited0, asked0, out0, todo, visited, asked, out)
    requires n.id in todo && n.addr == todo[n.id] && forall k :: k in todo ==> n.id <= k
    ensures n.id in visited ==> Walked(todo0, visited0, asked0, out0, todo - {n.id}, visited, asked, out)
    ensures n.id !in visited ==>
      Walked(todo0, visited0, asked0, out0, todo - {n.id}, Inserted(visited, n), asked + [n], out + 1)
  {
    hide Asked, Inserted;
    if n.id !in visited {
      AskOne(asked, visited, n);
      assert n.id in todo0 && n.id !in visited0;
    }
  }

  lemma WalkCounts(todo0: NodeSet, visited0: NodeSet, asked0: seq<Node>, out0: nat,
                   todo: NodeSet, visited: NodeSet, asked: seq<Node>, out: nat)
    requires Walked(todo0, visited0, asked0, out0, todo, visited, asked, out)
    ensures out == out0 + |asked| - |asked0| && out0 <= out && asked0 <= asked
  {
  }

  /** Nodes that an answer added to the list before the walk. */
  lemma WalkFrom(todo0: NodeSet, nodes: seq<Node>, todo1: NodeSet, visited0: NodeSet, asked0: seq<Node>, out0: nat,
                 todo: NodeSet, visited: NodeSet, asked: seq<Node>, out: nat)
    requires From(todo1, todo0, nodes) && (forall k :: k in todo0 ==> k in todo1)
    requires Walked(todo1, visited0, asked0, out0, todo, visited, asked, out)
    ensures From(todo, todo0, nodes) && FromList(visited, visited0, todo0, nodes)
    ensures forall k :: k in todo1 || k in visited0 ==> k in todo || k in visited
    ensures forall k :: k in visited0 ==> k in visited
  {
  }

  lemma NobodyNew(todo: NodeSet, visited: NodeSet, nodes: seq<Node>)
    ensures From(todo, todo, nodes) && FromList(visited, visited, todo, nodes)
  {
  }

  /** The nodes that an answer names, and its sender. */
  function NamedBy(answer: Option<(Node, seq<Node>)>): seq<Node> { if answer.Some? then answer.value.1 else [] }

  function SenderOf(answer: Option<(Node, seq<Node>)>): seq<Node> { if answer.Some? then [answer.value.0] else [] }

  lemma SameNumber(asked: seq<Node>, visited: NodeSet)
    ensures Asked(asked, visited) ==> |asked| == |visited|
  {
  }

  /** Somebody has been asked exactly if there was anybody new to ask, and room for a request. */
  lemma WalkDone(todo0: NodeSet, visited0: NodeSet, asked0: seq<Node>, out0: nat,
                 todo: NodeSet, visited: NodeSet, asked: seq<Node>, out: nat)
    requires Walked(todo0, visited0, asked0, out0, todo, visited, asked, out) && out <= MAX_CONCURRENT_REQS
    requires todo == map[] || out == MAX_CONCURRENT_REQS
    ensures asked != asked0 <==> out0 < MAX_CONCURRENT_REQS && AnyNew(todo0, visited0)
    ensures |visited| - out == |asked| - out
  {
  }

  method First(s: NodeSet) returns (n: Node)
    requires s != map[]
    ensures n.id in s && n.addr == s[n.id] && forall k :: k in s ==> n.id <= k
  {
    var id :| id in s.Keys && forall k :: k in s.Keys ==> id <= k by {
      assert s.Keys != {};
      var m := SmallestExists(s.Keys);
    }
    n := Node(id, s[id]);
  }

  lemma Fewer(s: NodeSet, id: Id)
    requires id in s
    ensures |s - {id}| == |s| - 1
  {
    assert (s - {id}).Keys == s.Keys - {id};
  }

  class NodeLookup {
    const ourId: Id
    var todo: NodeSet
    var visited: NodeSet
    var outstandingReqs: nat
    var taskFinished: bool
    var queued: bool

    /** Nodes in the order in which they were queried, and how many of those queries are over. */
    ghost var asked: seq<Node>
    ghost var over: nat

    /** Holds even in the middle of an update. */
    ghost predicate Invariant()
      reads this
    {
      && Asked(asked, visited)
      && |asked| == over + outstandingReqs
      && outstandingReqs <= MAX_CONCURRENT_REQS
    }

    /** A started task that is not finished is waiting for at least one answer, and a queued one
        has not asked anybody. */
    ghost predicate Valid()
      reads this
    {
      && Invariant()
      && |visited| <= 216
      && (!taskFinished ==> |visited| <= 200)
      && (!queued && !taskFinished ==> outstandingReqs >= 1)
      && (queued ==> asked == [])
    }

    constructor (ourId: Id)
      ensures Valid() && queued && !taskFinished && asked == [] && over == 0 && this.ourId == ourId
    {
      this.ourId := ourId;
      todo, visited, outstandingReqs, taskFinished, queued := map[], map[], 0, false, true;
      asked, over := [], 0;
    }

    /** So a started task is finished once 200 of its calls are over, and no later than when
        all of them are. */
    lemma Finishes()
      requires Valid() && !queued
      ensures over >= 200 ==> taskFinished
      ensures over == |asked| ==> taskFinished
      ensures |asked| <= 216
      ensures forall i, j :: 0 <= i < j < |asked| ==> asked[i].id != asked[j].id
    {
    }

    predicate CanDoRequest()
      reads this
    {
      outstandingReqs < MAX_CONCURRENT_REQS
    }

    /** The loop of update. */
    method Ask()
      requires Invariant()
      modifies this`todo, this`visited, this`outstandingReqs, this`asked
      ensures Invariant() && Walked(old(todo), old(visited), old(asked), old(outstandingReqs), todo, visited, asked, outstandingReqs)
      ensures todo == map[] || outstandingReqs == MAX_CONCURRENT_REQS
      // somebody is asked exactly if there is anybody new to ask
      ensures asked != old(asked) <==> old(outstandingReqs) < MAX_CONCURRENT_REQS && AnyNew(old(todo), old(visited))
    {
      hide Asked, Inserted, Walked, AnyNew;
      WalkStarts(todo, visited, asked, outstandingReqs);
      while todo != map[] && CanDoRequest()
        invariant Invariant() && Walked(old(todo), old(visited), old(asked), old(outstandingReqs), todo, visited, asked, outstandingReqs)
        decreases |todo|
      {
        var n := First(todo);
        WalkOn(old(todo), old(visited), old(asked), old(outstandingReqs), todo, visited, asked, outstandingReqs, n);
        if n.id !in visited {
          AskOne(asked, visited, n);
          outstandingReqs := outstandingReqs + 1;
          asked := asked + [n];
          visited := Inserted(visited, n);
        }
        Fewer(todo, n.id);
        todo := todo - {n.id};
      }
      WalkDone(old(todo), old(visited), old(asked), old(outstandingReqs), todo, visited, asked, outstandingReqs);
    }

    method Update()
      requires Invariant() && !queued && |visited| <= 200
      modifies this
      ensures Valid() && !queued && over == old(over) && old(asked) <= asked
      ensures |asked| <= |old(asked)| + MAX_CONCURRENT_REQS
      ensures !taskFinished ==> outstandingReqs >= 1
      ensures old(taskFinished) ==> taskFinished
      ensures taskFinished ==> old(taskFinished) || |visited| > 200 || (todo == map[] && outstandingReqs == 0)
      // every node that leaves the list has been asked, and only nodes of the list are
      ensures forall k :: k in old(todo) ==> k in todo || k in visited
      ensures forall k :: k in visited ==> k in old(visited) || k in old(todo)
      ensures forall k :: k in old(visited) ==> k in visited
      ensures ClosestFirst(asked, |old(asked)|, todo)
      ensures From(todo, old(todo), []) && FromEither(visited, old(visited), old(todo))
      // and somebody is asked, if there is anybody new to ask
      ensures asked != old(asked) <==> old(outstandingReqs) < MAX_CONCURRENT_REQS && AnyNew(old(todo), old(visited))
    {
      Ask();
      if todo == map[] && outstandingReqs == 0 && !taskFinished {
        taskFinished := true;
      } else if |visited| > 200 {
        taskFinished := true;
      }
    }

    /** Fills the list with the closest known nodes, and starts unless the task has to wait. */
    method StartWith(nodes: seq<Node>, queued: bool)
      requires Valid() && this.queued
      modifies this
      ensures Valid() && this.queued == queued && over == old(over) && old(asked) <= asked
      ensures forall i :: 0 <= i < |nodes| ==> nodes[i].id in todo || nodes[i].id in visited
      ensures From(todo, old(todo), nodes) && FromList(visited, old(visited), old(todo), nodes)
      ensures !queued && !taskFinished ==> outstandingReqs >= 1
      ensures queued ==> asked == old(asked) && taskFinished == old(taskFinished)
      ensures old(taskFinished) ==> taskFinished
    {
      todo := InsertedAll(todo, nodes);
      this.queued := queued;
      if !queued {
        Update();
      }
    }

    /** Starts a task that had to wait. A task that was killed while it waited is started as well,
        and then sends at most 16 requests; it does so exactly if its list is not empty. */
    method Start()
      requires Valid()
      modifies this
      ensures Valid() && !queued && over == old(over) && old(asked) <= asked
      ensures old(taskFinished) ==> taskFinished && |asked| <= |old(asked)| + MAX_CONCURRENT_REQS
      ensures asked != old(asked) <==> old(queued) && old(todo) != map[]
    {
      hide Asked;
      NobodyAsked(visited, todo);
      if queued {
        queued := false;
        Update();
      }
    }

    /** Nodes named in an answer, except ourselves and those already listed or asked. */
    method HandleNodes(nodes: seq<Node>)
      modifies this`todo
      ensures forall k :: k in todo ==> k in old(todo) || (k != ourId && k !in visited)
      ensures forall k :: k in old(todo) ==> k in todo
      ensures From(todo, old(todo), nodes) && Extends(todo, old(todo))
      ensures forall i :: 0 <= i < |nodes| && nodes[i].id != ourId && nodes[i].id !in visited ==> nodes[i].id in todo
    {
      for j := 0 to |nodes|
        invariant forall k :: k in todo ==> k in old(todo) || (k != ourId && k !in visited)
        invariant forall k :: k in old(todo) ==> k in todo
        invariant From(todo, old(todo), nodes) && Extends(todo, old(todo))
        invariant forall i :: 0 <= i < j && nodes[i].id != ourId && nodes[i].id !in visited ==> nodes[i].id in todo
      {
        var e := nodes[j];
        assert Node(e.id, e.addr) == e;
        if e.id != ourId && e.id !in todo && e.id !in visited {
          todo := Inserted(todo, e);
        }
      }
    }

    /** A call is over: with an answer that names nodes, with another answer, or by a timeout. */
    method OnCallOver(nodes: Option<seq<Node>>)
      requires Valid() && !queued
      modifies this
      ensures Valid() && !queued && old(asked) <= asked
      ensures old(outstandingReqs) > 0 ==> over == old(over) + 1
      ensures old(taskFinished) ==> taskFinished && asked == old(asked)
      ensures !old(taskFinished) && nodes.Some? ==>
        forall i :: 0 <= i < |nodes.value| && nodes.value[i].id != ourId ==> nodes.value[i].id in todo || nodes.value[i].id in visited
      ensures From(todo, old(todo), if nodes.Some? then nodes.value else [])
      ensures FromList(visited, old(visited), old(todo), if nodes.Some? then nodes.value else [])
    {
      if outstandingReqs > 0 {
        outstandingReqs := outstandingReqs - 1;
        over := over + 1;
      }
      if !taskFinished {
        if nodes.Some? {
          HandleNodes(nodes.value);
        }
        if CanDoRequest() && !taskFinished {
          Update();
        }
      }
    }

    method Kill()
      requires Valid()
      modifies this`taskFinished
      ensures Valid() && taskFinished
    {
      taskFinished := true;
    }

    /** Bootstrap nodes have no known id and are entered under 0. */
    method AddDHTNode(addr: Address)
      requires Valid()
      modifies this`todo
      ensures Valid() && todo == Inserted(old(todo), Node(0, addr))
    {
      todo := Inserted(todo, Node(0, addr));
    }
  }

  /** As a lookup, but with get_peers queries, and announcing us to the nodes that answered. */
  class AnnounceTask {
    var todo: NodeSet
    var visited: NodeSet
    var answered: NodeSet
    var answeredVisited: NodeSet
    var outstandingReqs: nat
    var taskFinished: bool
    var queued: bool

    ghost var asked: seq<Node>
    ghost var announced: seq<Node>
    ghost var over: nat

    ghost predicate Invariant()
      reads this
    {
      && Asked(asked, visited)
      && Asked(announced, answeredVisited)
      && |asked| + |announced| == over + outstandingReqs
      && outstandingReqs <= MAX_CONCURRENT_REQS
    }

    ghost predicate Valid()
      reads this
    {
      && Invariant()
      && |visited| <= 216 && |answeredVisited| <= 66
      && (!taskFinished ==> |visited| <= 200 && |answeredVisited| <= 50)
      && (!queued && !taskFinished ==> outstandingReqs >= 1)
      && (queued ==> asked == [] && announced == [] && answered == map[])
    }

    constructor ()
      ensures Valid() && queued && !taskFinished && asked == [] && announced == [] && over == 0
    {
      todo, visited, answered, answeredVisited := map[], map[], map[], map[];
      outstandingReqs, taskFinished, queued := 0, false, true;
      asked, announced, over := [], [], 0;
    }

    lemma Finishes()
      requires Valid() && !queued
      ensures over >= 250 ==> taskFinished
      ensures over == |asked| + |announced| ==> taskFinished
      ensures |asked| <= 216 && |announced| <= 66
      ensures forall i, j :: 0 <= i < j < |asked| ==> asked[i].id != asked[j].id
      ensures forall i, j :: 0 <= i < j < |announced| ==> announced[i].id != announced[j].id
    {
    }

    predicate CanDoRequest()
      reads this
    {
      outstandingReqs < MAX_CONCURRENT_REQS
    }

    method Announce()
      requires Invariant()
      modifies this`answered, this`answeredVisited, this`outstandingReqs, this`announced
      ensures Invariant() && Walked(old(answered), old(answeredVisited), old(announced), old(outstandingReqs), answered, answeredVisited, announced, outstandingReqs)
      ensures answered == map[] || outstandingReqs == MAX_CONCURRENT_REQS
      // somebody is asked exactly if there is anybody new to ask
      ensures announced != old(announced) <==> old(outstandingReqs) < MAX_CONCURRENT_REQS && AnyNew(old(answered), old(answeredVisited))
    {
      hide Asked, Inserted, Walked, AnyNew;
      WalkStarts(answered, answeredVisited, announced, outstandingReqs);
      while answered != map[] && CanDoRequest()
        invariant Invariant() && Walked(old(answered), old(answeredVisited), old(announced), old(outstandingReqs), answered, answeredVisited, announced, outstandingReqs)
        decreases |answered|
      {
        var n := First(answered);
        WalkOn(old(answered), old(answeredVisited), old(announced), old(outstandingReqs), answered, answeredVisited, announced, outstandingReqs, n);
        if n.id !in answeredVisited {
          AskOne(announced, answeredVisited, n);
          outstandingReqs := outstandingReqs + 1;
          announced := announced + [n];
          answeredVisited := Inserted(answeredVisited, n);
        }
        Fewer(answered, n.id);
        answered := answered - {n.id};
      }
      WalkDone(old(answered), old(answeredVisited), old(announced), old(outstandingReqs), answered, answeredVisited, announced, outstandingReqs);
    }

    method GetPeers()
      requires Invariant()
      modifies this`todo, this`visited, this`outstandingReqs, this`asked
      ensures Invariant() && Walked(old(todo), old(visited), old(asked), old(outstandingReqs), todo, visited, asked, outstandingReqs)
      ensures todo == map[] || outstandingReqs == MAX_CONCURRENT_REQS
      // somebody is asked exactly if there is anybody new to ask
      ensures asked != old(asked) <==> old(outstandingReqs) < MAX_CONCURRENT_REQS && AnyNew(old(todo), old(visited))
    {
      hide Asked, Inserted, Walked, AnyNew;
      WalkStarts(todo, visited, asked, outstandingReqs);
      while todo != map[] && CanDoRequest()
        invariant Invariant() && Walked(old(todo), old(visited), old(asked), old(outstandingReqs), todo, visited, asked, outstandingReqs)
        decreases |todo|
      {
        var n := First(todo);
        WalkOn(old(todo), old(visited), old(asked), old(outstandingReqs), todo, visited, asked, outstandingReqs, n);
        if n.id !in visited {
          AskOne(asked, visited, n);
          outstandingReqs := outstandingReqs + 1;
          asked := asked + [n];
          visited := Inserted(visited, n);
        }
        Fewer(todo, n.id);
        todo := todo - {n.id};
      }
      WalkDone(old(todo), old(visited), old(asked), old(outstandingReqs), todo, visited, asked, outstandingReqs);
    }

    method Update()
      requires Invariant() && !queued && |visited| <= 200 && |answeredVisited| <= 50
      modifies this
      ensures Valid() && !queued && over == old(over)
      ensures old(asked) <= asked && old(announced) <= announced
      ensures |asked| + |announced| <= |old(asked)| + |old(announced)| + MAX_CONCURRENT_REQS
      // announces go out first, and requests for what is left
      ensures Walked(old(answered), old(answeredVisited), old(announced), old(outstandingReqs),
                     answered, answeredVisited, announced, old(outstandingReqs) + |announced| - |old(announced)|)
      ensures Walked(old(todo), old(visited), old(asked), old(outstandingReqs) + |announced| - |old(announced)|,
                     todo, visited, asked, outstandingReqs)
      ensures announced != old(announced) <==> old(outstandingReqs) < MAX_CONCURRENT_REQS && AnyNew(old(answered), old(answeredVisited))
      ensures asked != old(asked) <==>
        old(outstandingReqs) + |announced| - |old(announced)| < MAX_CONCURRENT_REQS && AnyNew(old(todo), old(visited))
      ensures !taskFinished ==> outstandingReqs >= 1
      ensures old(taskFinished) ==> taskFinished
      ensures taskFinished ==> old(taskFinished) || |visited| > 200 || |answeredVisited| > 50 || (todo == map[] && answered == map[] && outstandingReqs == 0)
    {
      hide Asked, Walked, AnyNew;
      SameNumber(asked, visited);
      SameNumber(announced, answeredVisited);
      Announce();
      WalkCounts(old(answered), old(answeredVisited), old(announced), old(outstandingReqs), answered, answeredVisited, announced, outstandingReqs);
      ghost var mid := outstandingReqs;
      GetPeers();
      WalkCounts(old(todo), old(visited), old(asked), mid, todo, visited, asked, outstandingReqs);
      SameNumber(asked, visited);
      SameNumber(announced, answeredVisited);
      if todo == map[] && answered == map[] && outstandingReqs == 0 && !taskFinished {
        taskFinished := true;
      } else if |answeredVisited| > 50 || |visited| > 200 {
        taskFinished := true;
      }
    }

    method StartWith(nodes: seq<Node>, queued: bool)
      requires Valid() && this.queued
      modifies this
      ensures Valid() && this.queued == queued && over == old(over)
      ensures forall i :: 0 <= i < |nodes| ==> nodes[i].id in todo || nodes[i].id in visited
      ensures From(todo, old(todo), nodes) && FromList(visited, old(visited), old(todo), nodes)
      ensures queued ==> asked == old(asked) && announced == old(announced) && taskFinished == old(taskFinished)
      ensures old(taskFinished) ==> taskFinished
      ensures old(asked) <= asked && old(announced) <= announced
    {
      hide Asked;
      NobodyAsked(visited, todo);
      NobodyAsked(answeredVisited, answered);
      todo := InsertedAll(todo, nodes);
      this.queued := queued;
      if !queued {
        Update();
      }
    }

    /** A task that was killed while it waited is started as well, as for a lookup. */
    method Start()
      requires Valid()
      modifies this
      ensures Valid() && !queued && over == old(over)
      ensures old(asked) <= asked && announced == old(announced)
      ensures old(taskFinished) ==> taskFinished && |asked| <= |old(asked)| + MAX_CONCURRENT_REQS
      ensures asked != old(asked) <==> old(queued) && old(todo) != map[]
    {
      hide Asked;
      NobodyAsked(visited, todo);
      NobodyAsked(answeredVisited, answered);
      if queued {
        queued := false;
        Update();
      }
    }

    /** At most about a hundred nodes are kept to be asked. */
    method HandleNodes(nodes: seq<Node>)
      modifies this`todo
      ensures forall k :: k in todo ==> k in old(todo) || k !in visited
      ensures forall k :: k in old(todo) ==> k in todo
      ensures From(todo, old(todo), nodes) && Extends(todo, old(todo))
      ensures |old(todo)| <= 100 ==> |todo| <= 100
      ensures |old(todo)| + |nodes| <= 100 ==> forall i :: 0 <= i < |nodes| ==> nodes[i].id in todo || nodes[i].id in visited
      ensures |todo| >= 100 || forall i :: 0 <= i < |nodes| && nodes[i].id !in visited ==> nodes[i].id in todo
    {
      for j := 0 to |nodes|
        invariant forall k :: k in todo ==> k in old(todo) || k !in visited
        invariant forall k :: k in old(todo) ==> k in todo
        invariant From(todo, old(todo), nodes) && Extends(todo, old(todo))
        invariant |old(todo)| <= 100 ==> |todo| <= 100
        invariant |todo| <= |old(todo)| + j
        invariant |old(todo)| + |nodes| <= 100 ==> forall i :: 0 <= i < j ==> nodes[i].id in todo || nodes[i].id in visited
        invariant |todo| >= 100 || forall i :: 0 <= i < j && nodes[i].id !in visited ==> nodes[i].id in todo
      {
        var e := nodes[j];
        assert Node(e.id, e.addr) == e;
        if e.id !in visited && |todo| < 100 {
          todo := Inserted(todo, e);
        }
      }
    }

    /** What an answer adds to the lists: its sender and the nodes that it names. */
    method CallFinished(sender: Node, nodes: seq<Node>)
      modifies this`todo, this`answered
      ensures From(todo, old(todo), nodes) && From(answered, old(answered), [sender])
      ensures Extends(todo, old(todo)) && Extends(answered, old(answered))
      ensures forall k :: k in old(todo) ==> k in todo
      ensures forall k :: k in old(answered) ==> k in answered
      ensures sender.id in answered || sender.id in answeredVisited
      ensures old(|todo|) + |nodes| <= 100 ==> forall i :: 0 <= i < |nodes| ==> nodes[i].id in todo || nodes[i].id in visited
    {
      HandleNodes(nodes);
      if sender.id !in answeredVisited {
        answered := Inserted(answered, sender);
      }
    }

    /** A call is over. `answer` is the sender and the nodes of a get_peers answer; anything
        else, and a timeout, is None. */
    method OnCallOver(answer: Option<(Node, seq<Node>)>)
      requires Valid() && !queued
      modifies this
      ensures Valid() && !queued
      ensures old(asked) <= asked && old(announced) <= announced
      ensures old(outstandingReqs) > 0 ==> over == old(over) + 1
      ensures old(taskFinished) ==> taskFinished && asked == old(asked) && announced == old(announced)
      ensures !old(taskFinished) ==> forall k :: k in old(todo) ==> k in todo || k in visited
      // the sender can be announced to, and the nodes that it named can be asked
      ensures !old(taskFinished) && answer.Some? ==> answer.value.0.id in answered || answer.value.0.id in answeredVisited
      ensures !old(taskFinished) && answer.Some? && old(|todo|) + |answer.value.1| <= 100 ==>
        forall i :: 0 <= i < |answer.value.1| ==> answer.value.1[i].id in todo || answer.value.1[i].id in visited
      // and nobody else
      ensures From(todo, old(todo), NamedBy(answer)) && FromList(visited, old(visited), old(todo), NamedBy(answer))
      ensures From(answered, old(answered), SenderOf(answer))
      ensures FromList(answeredVisited, old(answeredVisited), old(answered), SenderOf(answer))
    {
      hide Asked, Walked, From, FromList;
      NobodyNew(todo, visited, NamedBy(answer));
      NobodyNew(answered, answeredVisited, SenderOf(answer));
      if outstandingReqs > 0 {
        outstandingReqs := outstandingReqs - 1;
        over := over + 1;
      }
      if !taskFinished {
        if answer.Some? {
          CallFinished(answer.value.0, answer.value.1);
        }
        if CanDoRequest() && !taskFinished {
          ghost var t, v, a, an, av, ann, o := todo, visited, asked, answered, answeredVisited, announced, outstandingReqs;
          Update();
          ghost var mid := o + |announced| - |ann|;
          WalkFrom(old(answered), SenderOf(answer), an, av, ann, o, answered, answeredVisited, announced, mid);
          WalkFrom(old(todo), NamedBy(answer), t, v, a, mid, todo, visited, asked, outstandingReqs);
        }
      }
    }

    method Kill()
      requires Valid()
      modifies this`taskFinished
      ensures Valid() && taskFinished
    {
      taskFinished := true;
    }
  }

  lemma NobodyAsked(visited: NodeSet, todo: NodeSet)
    ensures Asked([], visited) ==> |visited| == 0 && (AnyNew(todo, visited) <==> todo != map[])
  {
    if Asked([], visited) && todo != map[] {
      assert visited == map[];
      var k := PickElement(todo.Keys);
    }
  }

  /** A run in which a finished task asks somebody: it is killed while it waits, and then started. */
  method KilledTaskSends(ourId: Id, nodes: seq<Node>) returns (task: NodeLookup)
    requires nodes != []
    ensures task.Valid() && task.taskFinished && task.asked != []
  {
    task := new NodeLookup(ourId);
    task.StartWith(nodes, true);
    assert task.visited == map[];
    assert nodes[0].id in task.todo;
    task.Kill();
    task.Start();
  }
}
