/** Configuration trees and the paths that address their nodes (libdm-config.c).
    A sibling list is a sequence of nodes; a value list is a sequence of values,
    empty where the C node has no value. */
module ConfigTree {
  import opened Options

  /** The formatting flags of a value. `typed` is the bit that prints an integer in
      octal and a string without quotes. */
  datatype Format = Format(asArray: bool, extraSpaces: bool, typed: bool)

  const Plain := Format(false, false, false)

  datatype Value =
    | Int(i: int, format: Format)
    | Str(s: string, format: Format)
    | EmptyArray(format: Format)

  datatype Node = Node(key: string, values: seq<Value>, child: seq<Node>)


  // ---- paths ----

  function TrimSlashes(p: string): string {
    if p != [] && p[0] == '/' then TrimSlashes(p[1..]) else p
  }

  /** Length of the segment at the start of p. */
  function SegmentLen(p: string): (n: nat)
    ensures n <= |p|
  {
    if p == [] || p[0] == '/' then 0 else 1 + SegmentLen(p[1..])
  }

  lemma {:induction false} TrimShrinks(p: string)
    ensures |TrimSlashes(p)| <= |p|
    ensures TrimSlashes(p) != [] ==> TrimSlashes(p)[0] != '/'
  {
    if p != [] && p[0] == '/' {
      TrimShrinks(p[1..]);
    }
  }

  /** The node keys a path names, as _find_or_make_node takes it apart: repeated
      slashes count once, and a trailing slash names an empty key. */
  function Components(p: string): (keys: seq<string>)
    ensures keys != []
    decreases |p|
  {
    TrimShrinks(p);
    var q := TrimSlashes(p);
    var n := SegmentLen(q);
    if n == |q| then [q] else [q[..n]] + Components(q[n..])
  }

  predicate PathKey(key: string) {
    key != [] && '/' !in key
  }

  lemma {:induction false} SegmentOfKey(key: string, rest: string)
    requires '/' !in key && (rest == [] || rest[0] == '/')
    ensures SegmentLen(key + rest) == |key|
  {
    if key == [] {
      assert key + rest == rest;
    } else {
      assert (key + rest)[1..] == key[1..] + rest;
      SegmentOfKey(key[1..], rest);
    }
  }

  lemma ComponentsOfKey(key: string)
    requires PathKey(key)
    ensures Components(key) == [key]
  {
    SegmentOfKey(key, []);
    assert key + [] == key;
    assert key[0] in key;
  }

  /** The path _enumerate builds for a list of keys. */
  function JoinPath(keys: seq<string>): string {
    if keys == [] then [] else JoinPath(keys[..|keys| - 1]) + "/" + keys[|keys| - 1]
  }

  lemma JoinPathSnoc(keys: seq<string>, key: string)
    ensures JoinPath(keys + [key]) == JoinPath(keys) + "/" + key
  {
    assert (keys + [key])[..|keys|] == keys;
  }

  lemma JoinPathOne(key: string)
    ensures JoinPath([]) == [] && JoinPath([key]) == "/" + key + JoinPath([])
  {
    assert [key][..0] == [];
  }

  lemma CatPaths(a: string, b: string, c: string)
    ensures a + b + "/" + c == a + (b + "/" + c)
  {
  }

  lemma {:induction false} JoinPathFront(keys: seq<string>)
    requires keys != []
    ensures JoinPath(keys) == "/" + keys[0] + JoinPath(keys[1..])
  {
    hide JoinPath;
    var n := |keys| - 1;
    if n == 0 {
      JoinPathOne(keys[0]);
      assert keys == [keys[0]] && keys[1..] == [];
    } else {
      var front, mid, last := keys[..n], keys[1..n], keys[n];
      JoinPathFront(front);
      assert front[1..] == mid && keys == front + [last] && keys[1..] == mid + [last];
      JoinPathSnoc(front, last);
      JoinPathSnoc(mid, last);
      CatPaths("/" + keys[0], JoinPath(mid), last);
    }
  }

  /** Taking a built path apart gives the keys back. */
  lemma {:induction false} ComponentsOfJoin(keys: seq<string>)
    requires keys != [] && forall k :: k in keys ==> PathKey(k)
    ensures Components(JoinPath(keys)) == keys
  {
    JoinPathFront(keys);
    var rest := JoinPath(keys[1..]);
    var q := keys[0] + rest;
    var p := JoinPath(keys);
    assert p == ['/'] + q && p[1..] == q;
    assert keys[0] in keys && keys[0][0] in keys[0];
    assert TrimSlashes(p) == TrimSlashes(q) == q;
    if keys[1..] != [] {
      JoinPathFront(keys[1..]);
      ComponentsOfJoin(keys[1..]);
      SegmentOfKey(keys[0], rest);
      assert q[..|keys[0]|] == keys[0] && q[|keys[0]|..] == rest;
    } else {
      assert q == keys[0];
      SegmentOfKey(keys[0], []);
      assert keys[0] + [] == keys[0];
    }
    assert keys == [keys[0]] + keys[1..];
  }

  // ---- finding and making nodes ----

  /** Index of the first sibling with the key, or the number of siblings. */
  function FindKey(kids: seq<Node>, key: string): (i: nat)
    ensures i <= |kids|
    ensures i < |kids| ==> kids[i].key == key
    ensures forall j :: 0 <= j < i ==> kids[j].key != key
  {
    if kids == [] then 0
    else if kids[0].key == key then 0
    else 1 + FindKey(kids[1..], key)
  }

  /** _find_or_make_node without a memory pool: only looks. */
  function Lookup(kids: seq<Node>, path: seq<string>): Option<Node>
    requires path != []
    decreases |path|
  {
    var i := FindKey(kids, path[0]);
    if i == |kids| then None
    else if |path| == 1 then Some(kids[i])
    else Lookup(kids[i].child, path[1..])
  }

  /** Where a node is: the index to follow at each level. */
  type Trail = seq<nat>

  predicate ValidTrail(kids: seq<Node>, trail: Trail)
    decreases |trail|
  {
    && trail != []
    && trail[0] < |kids|
    && (|trail| > 1 ==> ValidTrail(kids[trail[0]].child, trail[1..]))
  }

  function At(kids: seq<Node>, trail: Trail): Node
    requires ValidTrail(kids, trail)
    decreases |trail|
  {
    if |trail| == 1 then kids[trail[0]] else At(kids[trail[0]].child, trail[1..])
  }

  /** The list with the node at the trail replaced. */
  function Put(kids: seq<Node>, trail: Trail, n: Node): seq<Node>
    requires ValidTrail(kids, trail)
    decreases |trail|
  {
    var i := trail[0];
    if |trail| == 1 then kids[i := n]
    else kids[i := kids[i].(child := Put(kids[i].child, trail[1..], n))]
  }

  datatype Located = Located(kids: seq<Node>, trail: Trail)

  /** _find_or_make_node with a memory pool: follows the path, and puts a new node in
      front of the siblings wherever a key is missing. Without the duplicate check
      every segment is new. */
  function FindOrMake(kids: seq<Node>, path: seq<string>, noDup: bool): (r: Located)
    requires path != []
    ensures ValidTrail(r.kids, r.trail)
    decreases |path|
  {
    var i := if noDup then |kids| else FindKey(kids, path[0]);
    var list := if i < |kids| then kids else [Node(path[0], [], [])] + kids;
    var j := if i < |kids| then i else 0;
    if |path| == 1 then Located(list, [j])
    else
      var sub := FindOrMake(list[j].child, path[1..], noDup);
      assert ([j] + sub.trail)[1..] == sub.trail;
      Located(list[j := list[j].(child := sub.kids)], [j] + sub.trail)
  }
}
