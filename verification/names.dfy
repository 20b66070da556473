/** `grabFiles` and `networkAddNames`: choosing the XML documents to read,
    and naming the output nodes from a cache of names-database entries
    that falls back on the names service. */
module Names {
  import opened Wrappers
  import opened Text
  import opened Seqs

  /** Python's `xs[:length]`: the first `length` elements, or all but the
      last `-length` when `length` is negative. */
  function Head<T>(xs: seq<T>, length: int): (r: seq<T>)
    ensures length >= 0 ==> |r| == if length <= |xs| then length else |xs|
    ensures length < 0 ==> |r| == if -length <= |xs| then |xs| + length else 0
    ensures r == xs[..|r|]
  {
    if length >= 0 then
      if length <= |xs| then xs[..length] else xs
    else if -length <= |xs| then xs[..|xs| + length]
    else []
  }

  /** `filename.endswith(".xml")`. */
  predicate IsXml(path: String)
  {
    EndsWith(path, ".xml")
  }

  /** Filtering keeps as many elements as satisfy the predicate. */
  lemma {:induction false} FilterCount<T(!new)>(xs: seq<T>, p: T -> bool)
    ensures |Filter(xs, p)| == CountIf(xs, p)
  {
    if |xs| > 0 {
      FilterCount(xs[..|xs| - 1], p);
    }
  }

  /** `grabFiles(folder, length)` over the paths the walk of `folder`
      yields, in walk order: the XML documents among them, cut to
      `length` by a Python slice. */
  function GrabFiles(paths: seq<String>, length: int): (files: seq<String>)
    ensures forall i :: 0 <= i < |files| ==> IsXml(files[i])
    ensures |files| <= |Filter(paths, IsXml)| && files == Filter(paths, IsXml)[..|files|]
    ensures length >= 0 ==> |files| == if length <= CountIf(paths, IsXml) then length else CountIf(paths, IsXml)
  {
    var xml := Filter(paths, IsXml);
    FilterCount(paths, IsXml);
    var files := Head(xml, length);
    assert forall i :: 0 <= i < |files| ==> files[i] in xml;
    files
  }

  /** Asking for at least as many documents as there are yields every XML
      path of the walk, and no other path. */
  lemma GrabFilesAll(paths: seq<String>, length: int, p: String)
    requires length >= CountIf(paths, IsXml)
    ensures p in GrabFiles(paths, length) <==> p in paths && IsXml(p)
  {
    FilterCount(paths, IsXml);
    assert GrabFiles(paths, length) == Filter(paths, IsXml);
  }

  /** A names-database entry, as kept in the cache and as the names
      service returns it. */
  datatype Person = Person(givenName: String, familyName: String)

  /** `given_name + " " + family_name`. */
  function FullName(p: Person): String
  {
    p.givenName + " " + p.familyName
  }

  /** A node of the node-link data: its id, its other attributes, and its
      `name` once set. */
  datatype Node<A> = Node(id: String, attrs: A, name: Option<String>)

  /** Why the run stops: the request raised (the `SystemExit` path), or a
      non-empty answer lacks the node's id (a `KeyError`). */
  datatype Error = RequestFailed(id: String) | MissingEntry(id: String)

  /** The names service: the `data` field of its answer for an id, or
      `None` when the request raises. */
  type Lookup = String -> Option<map<String, Person>>

  /** The service's answer for `id` lets a cache miss on `id` go through:
      the request succeeds, and a non-empty answer holds the id. */
  predicate Answers(lookup: Lookup, id: String)
  {
    lookup(id).Some? && (|lookup(id).value| == 0 || id in lookup(id).value)
  }

  /** Every entry of `small` is in `big`, unchanged. */
  predicate Extends(small: map<String, Person>, big: map<String, Person>)
  {
    forall k :: k in small ==> k in big && big[k] == small[k]
  }

  /** A node named, the cache after it, and whether the service was asked. */
  datatype Step<A> = Step(node: Node<A>, cache: map<String, Person>, requested: bool)

  /** One pass of the loop over `data['nodes']`. */
  function NameNode<A>(node: Node<A>, cache: map<String, Person>, lookup: Lookup): (r: Result<Step<A>, Error>)
    ensures r.Success? <==> node.id in cache || Answers(lookup, node.id)
    ensures r.Success? ==>
      && r.value.node.id == node.id && r.value.node.attrs == node.attrs && r.value.node.name.Some?
      && Extends(cache, r.value.cache)
      && (forall k :: k in r.value.cache ==> k in cache || k == node.id)
      && r.value.requested == (node.id !in cache)
  {
    if node.id in cache then
      Success(Step(node.(name := Some(FullName(cache[node.id]))), cache, false))
    else match lookup(node.id)
      case None => Failure(RequestFailed(node.id))
      case Some(data) =>
        if |data| == 0 then
          Success(Step(node.(name := Some(node.id)), cache, true))
        else if node.id in data then
          Success(Step(node.(name := Some(FullName(data[node.id]))), cache[node.id := data[node.id]], true))
        else
          Failure(MissingEntry(node.id))
  }

  /** The named nodes, the cache written back, and the ids the service was
      asked for, in order. */
  datatype Outcome<A> = Outcome(nodes: seq<Node<A>>, cache: map<String, Person>, requests: seq<String>)

  /** `networkAddNames(data)` with the loaded `idtoname` cache `cache`. */
  function AddNames<A>(nodes: seq<Node<A>>, cache: map<String, Person>, lookup: Lookup): (r: Result<Outcome<A>, Error>)
    ensures r.Success? ==> |r.value.nodes| == |nodes|
    ensures r.Success? ==> forall i :: 0 <= i < |nodes| ==>
      && r.value.nodes[i].id == nodes[i].id
      && r.value.nodes[i].attrs == nodes[i].attrs
      && r.value.nodes[i].name.Some?
    ensures r.Success? ==> Extends(cache, r.value.cache)
    ensures r.Success? ==> forall k :: k in r.value.cache ==> k in cache || k in r.value.requests
    ensures r.Success? ==> forall k :: k in r.value.requests ==> k !in cache && Answers(lookup, k)
  {
    if |nodes| == 0 then Success(Outcome([], cache, []))
    else match NameNode(nodes[0], cache, lookup)
      case Failure(e) => Failure(e)
      case Success(step) =>
        match AddNames(nodes[1..], step.cache, lookup)
        case Failure(e) => Failure(e)
        case Success(rest) =>
          var asked := if step.requested then [nodes[0].id] else [];
          var out := Outcome([step.node] + rest.nodes, rest.cache, asked + rest.requests);
          assert forall i :: 1 <= i < |nodes| ==> out.nodes[i] == rest.nodes[i - 1] && nodes[i] == nodes[1..][i - 1];
          Success(out)
  }

  /** One step of the fold: the first node is named by `NameNode`, the rest
      by the recursive run from the cache it leaves. */
  lemma Unfold<A>(nodes: seq<Node<A>>, cache: map<String, Person>, lookup: Lookup)
    requires |nodes| > 0 && AddNames(nodes, cache, lookup).Success?
    ensures NameNode(nodes[0], cache, lookup).Success?
    ensures var out := AddNames(nodes, cache, lookup).value;
      var step := NameNode(nodes[0], cache, lookup).value;
      var rest := AddNames(nodes[1..], step.cache, lookup);
      && rest.Success?
      && out.cache == rest.value.cache
      && out.nodes[0] == step.node
      && forall i :: 1 <= i < |nodes| ==> out.nodes[i] == rest.value.nodes[i - 1]
  {
  }

  /** The run goes through exactly when the service answers usefully for
      every node id missing from the loaded cache. */
  lemma {:induction false} AddNamesSucceeds<A>(nodes: seq<Node<A>>, cache: map<String, Person>, lookup: Lookup)
    ensures AddNames(nodes, cache, lookup).Success? <==>
      forall i :: 0 <= i < |nodes| && nodes[i].id !in cache ==> Answers(lookup, nodes[i].id)
  {
    if |nodes| > 0 {
      var first := NameNode(nodes[0], cache, lookup);
      if first.Success? {
        var c := first.value.cache;
        AddNamesSucceeds(nodes[1..], c, lookup);
        if forall i :: 0 <= i < |nodes| && nodes[i].id !in cache ==> Answers(lookup, nodes[i].id) {
          forall i | 0 <= i < |nodes[1..]| && nodes[1..][i].id !in c ensures Answers(lookup, nodes[1..][i].id) {
            assert nodes[1..][i] == nodes[i + 1];
          }
        }
        if AddNames(nodes[1..], c, lookup).Success? {
          forall i | 0 <= i < |nodes| && nodes[i].id !in cache ensures Answers(lookup, nodes[i].id) {
            if i > 0 && nodes[i].id !in c {
              assert nodes[1..][i - 1] == nodes[i];
            }
          }
        }
      }
    }
  }

  /** A node whose id is in the loaded cache gets the cached full name. */
  lemma {:induction false} CacheHit<A>(nodes: seq<Node<A>>, cache: map<String, Person>, lookup: Lookup, i: nat)
    requires AddNames(nodes, cache, lookup).Success?
    requires i < |nodes| && nodes[i].id in cache
    ensures AddNames(nodes, cache, lookup).value.nodes[i].name == Some(FullName(cache[nodes[i].id]))
  {
    var step := NameNode(nodes[0], cache, lookup).value;
    if i > 0 {
      assert nodes[1..][i - 1] == nodes[i];
      CacheHit(nodes[1..], step.cache, lookup, i - 1);
    }
  }

  /** When every id is cached the service is never asked: the outcome does
      not depend on it and the cache is written back unchanged. */
  lemma {:induction false} AllCached<A>(nodes: seq<Node<A>>, cache: map<String, Person>, lookup: Lookup, other: Lookup)
    requires forall i :: 0 <= i < |nodes| ==> nodes[i].id in cache
    ensures AddNames(nodes, cache, lookup) == AddNames(nodes, cache, other)
    ensures AddNames(nodes, cache, lookup).Success?
    ensures AddNames(nodes, cache, lookup).value.requests == []
    ensures AddNames(nodes, cache, lookup).value.cache == cache
  {
    if |nodes| > 0 {
      assert forall i :: 0 <= i < |nodes[1..]| ==> nodes[1..][i] == nodes[i + 1];
      AllCached(nodes[1..], cache, lookup, other);
    }
  }

  /** A node missing from the loaded cache, for which the service answers
      with a non-empty `data` holding it, is named from that answer and
      its entry is added to the cache. */
  lemma {:induction false} MissFilled<A>(nodes: seq<Node<A>>, cache: map<String, Person>, lookup: Lookup, i: nat)
    requires AddNames(nodes, cache, lookup).Success?
    requires i < |nodes| && nodes[i].id !in cache
    requires lookup(nodes[i].id).Some? && |lookup(nodes[i].id).value| > 0
    ensures nodes[i].id in lookup(nodes[i].id).value
    ensures var x := nodes[i].id; var entry := lookup(x).value[x];
      && AddNames(nodes, cache, lookup).value.nodes[i].name == Some(FullName(entry))
      && x in AddNames(nodes, cache, lookup).value.cache
      && AddNames(nodes, cache, lookup).value.cache[x] == entry
  {
    var x := nodes[i].id;
    Unfold(nodes, cache, lookup);
    var step := NameNode(nodes[0], cache, lookup).value;
    if nodes[0].id == x {
      FilledFirst(nodes, cache, lookup, i);
    } else {
      assert i > 0 && nodes[1..][i - 1] == nodes[i];
      MissFilled(nodes[1..], step.cache, lookup, i - 1);
    }
  }

  /** `MissFilled` when the first node already carries the missing id: the
      first request fills the cache and every later copy is a cache hit. */
  lemma FilledFirst<A>(nodes: seq<Node<A>>, cache: map<String, Person>, lookup: Lookup, i: nat)
    requires AddNames(nodes, cache, lookup).Success?
    requires i < |nodes| && nodes[i].id !in cache && nodes[0].id == nodes[i].id
    requires lookup(nodes[i].id).Some? && |lookup(nodes[i].id).value| > 0
    ensures nodes[i].id in lookup(nodes[i].id).value
    ensures var x := nodes[i].id; var entry := lookup(x).value[x];
      && AddNames(nodes, cache, lookup).value.nodes[i].name == Some(FullName(entry))
      && x in AddNames(nodes, cache, lookup).value.cache
      && AddNames(nodes, cache, lookup).value.cache[x] == entry
  {
    var x := nodes[i].id;
    Unfold(nodes, cache, lookup);
    var step := NameNode(nodes[0], cache, lookup).value;
    var entry := lookup(x).value[x];
    assert step.cache == cache[x := entry];
    if i > 0 {
      assert nodes[1..][i - 1] == nodes[i];
      CacheHit(nodes[1..], step.cache, lookup, i - 1);
    }
  }

  /** A node missing from the loaded cache, for which the service answers
      with an empty `data`, is named by its id and never enters the cache. */
  lemma {:induction false} MissEmpty<A>(nodes: seq<Node<A>>, cache: map<String, Person>, lookup: Lookup, i: nat)
    requires AddNames(nodes, cache, lookup).Success?
    requires i < |nodes| && nodes[i].id !in cache
    requires lookup(nodes[i].id) == Some(map[])
    ensures AddNames(nodes, cache, lookup).value.nodes[i].name == Some(nodes[i].id)
    ensures nodes[i].id !in AddNames(nodes, cache, lookup).value.cache
  {
    var x := nodes[i].id;
    var step := NameNode(nodes[0], cache, lookup).value;
    assert x !in step.cache;
    assert forall j :: 0 <= j < |nodes[1..]| ==> nodes[1..][j] == nodes[j + 1];
    if i > 0 {
      MissEmpty(nodes[1..], step.cache, lookup, i - 1);
    } else {
      NeverCached(nodes[1..], step.cache, lookup, x);
    }
  }

  /** An id missing from the cache, for which the service answers with an
      empty `data`, stays missing. */
  lemma {:induction false} NeverCached<A>(nodes: seq<Node<A>>, cache: map<String, Person>, lookup: Lookup, x: String)
    requires AddNames(nodes, cache, lookup).Success?
    requires x !in cache && lookup(x) == Some(map[])
    ensures x !in AddNames(nodes, cache, lookup).value.cache
  {
    if |nodes| > 0 {
      var step := NameNode(nodes[0], cache, lookup).value;
      assert x !in step.cache;
      NeverCached(nodes[1..], step.cache, lookup, x);
    }
  }

  /** Every name is either the node's id or the full name of its entry in
      the cache written back. */
  lemma {:induction false} NameFromCacheOrId<A>(nodes: seq<Node<A>>, cache: map<String, Person>, lookup: Lookup, i: nat)
    requires AddNames(nodes, cache, lookup).Success?
    requires i < |nodes|
    ensures var out := AddNames(nodes, cache, lookup).value; var x := nodes[i].id;
      || out.nodes[i].name == Some(x)
      || (x in out.cache && out.nodes[i].name == Some(FullName(out.cache[x])))
  {
    var step := NameNode(nodes[0], cache, lookup).value;
    if i > 0 {
      assert nodes[1..][i - 1] == nodes[i];
      NameFromCacheOrId(nodes[1..], step.cache, lookup, i - 1);
    }
  }
}
