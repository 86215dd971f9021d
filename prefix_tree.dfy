/**
 * The string-set trie of smlnj/util/PrefixTree.py.
 *
 * A node maps characters to child nodes and carries a flag saying whether
 * the path from the root to it spells a stored string.  Nodes are values
 * here: where the source updates a node in place, the model rebuilds the
 * path from the root down to that node (see `Rebuild`).
 */
module Trie {
  import opened Wrappers

  datatype Node = Node(children: map<char, Node>, isString: bool)

  /** What `remove` does: succeed, or raise `KeyError` with the quoted string as its message. */
  datatype Outcome = Removed | KeyError(message: string)

  /** A freshly created node (`PrefixTree.Node()`): no children, not a string. */
  const Empty := Node(map[], false)

  /** A node that stores nothing and leads nowhere. */
  predicate Dead(n: Node) {
    !n.isString && n.children == map[]
  }

  /** No node below `n` is dead; `n` itself (the root) may be. */
  ghost predicate Pruned(n: Node) {
    forall c :: c in n.children ==> !Dead(n.children[c]) && Pruned(n.children[c])
  }

  /** The node reached from `n` by following the characters of `s`, if every edge exists. */
  function Lookup(n: Node, s: string): Option<Node>
    decreases s
  {
    if s == [] then Some(n)
    else if s[0] in n.children then Lookup(n.children[s[0]], s[1..])
    else None
  }

  /** `s` is stored below `n`. */
  predicate Member(n: Node, s: string)
    decreases s
  {
    if s == [] then n.isString
    else s[0] in n.children && Member(n.children[s[0]], s[1..])
  }

  /** `n` with the edge `e.0` pointing to `m` (creating or replacing it). */
  function Attach(e: (char, Node), m: Node): Node {
    e.1.(children := e.1.children[e.0 := m])
  }

  /** Like `Attach`, except that a dead `m` is popped from its parent instead. */
  function Prune(e: (char, Node), m: Node): (r: Node)
    ensures r.isString == e.1.isString
    ensures e.0 in r.children <==> !Dead(m)
    ensures e.0 in r.children ==> r.children[e.0] == m
    ensures forall c :: c != e.0 ==> (c in r.children <==> c in e.1.children)
    ensures forall c :: c != e.0 && c in r.children ==> r.children[c] == e.1.children[c]
  {
    if Dead(m) then e.1.(children := e.1.children - {e.0}) else Attach(e, m)
  }

  /**
   * Reattaches `m` below a path of (character, parent) pairs listed deepest
   * first, as the source's `visited` deque lists them.
   */
  function Rebuild(path: seq<(char, Node)>, m: Node): Node {
    if path == [] then m else Rebuild(path[1..], Attach(path[0], m))
  }

  /** Like `Rebuild`, popping every dead node on the way up. */
  function RebuildPruned(path: seq<(char, Node)>, m: Node): Node {
    if path == [] then m else RebuildPruned(path[1..], Prune(path[0], m))
  }

  /** The tree after `add(s)`: missing nodes are created and the end node is marked. */
  function Insert(n: Node, s: string): (r: Node)
    ensures Member(r, s)
    ensures !Dead(r)
    decreases s
  {
    if s == [] then n.(isString := true)
    else
      var child := if s[0] in n.children then n.children[s[0]] else Empty;
      Attach((s[0], n), Insert(child, s[1..]))
  }

  /** The tree after a successful `remove(s)`: the end node is unmarked and dead nodes are popped bottom-up. */
  function Delete(n: Node, s: string): (r: Node)
    ensures !Member(r, s)
    decreases s
  {
    if s == [] then n.(isString := false)
    else if s[0] !in n.children then n
    else Prune((s[0], n), Delete(n.children[s[0]], s[1..]))
  }

  /** Every element of `r` occurs once. */
  predicate Distinct(r: seq<string>) {
    forall i, j :: 0 <= i < j < |r| ==> r[i] != r[j]
  }

  /** A string is listed before every string it is a proper prefix of (a node before its descendants). */
  predicate PreOrder(r: seq<string>) {
    forall i, j :: 0 <= i < |r| && 0 <= j < |r| && r[i] < r[j] ==> i < j
  }

  /** `r` lists exactly the strings of `contents` that start with `p`, each once, in pre-order. */
  ghost predicate IsListing(r: seq<string>, contents: set<string>, p: string) {
    && (forall x :: x in r <==> x in contents && p <= x)
    && Distinct(r)
    && PreOrder(r)
  }

  // ---------------------------------------------------------------------
  // Lemmas about the node functions

  lemma {:induction false} LookupMember(n: Node, s: string)
    ensures Member(n, s) <==> Lookup(n, s).Some? && Lookup(n, s).value.isString
    decreases s
  {
    if s != [] && s[0] in n.children {
      LookupMember(n.children[s[0]], s[1..]);
    }
  }

  /** Following `p` and then `t` is following `p + t`. */
  lemma {:induction false} MemberAppend(n: Node, p: string, t: string)
    ensures Member(n, p + t) <==> Lookup(n, p).Some? && Member(Lookup(n, p).value, t)
    decreases p
  {
    if p == [] {
      assert p + t == t;
    } else {
      assert (p + t)[0] == p[0] && (p + t)[1..] == p[1..] + t;
      if p[0] in n.children {
        MemberAppend(n.children[p[0]], p[1..], t);
      }
    }
  }

  lemma EmptyHasNoMembers(s: string)
    ensures !Member(Empty, s)
  {
  }

  /** After `add(s)`, `s` is stored, every earlier string is still stored, and nothing else is. */
  lemma {:induction false} InsertMembers(n: Node, s: string, t: string)
    ensures Member(Insert(n, s), t) <==> Member(n, t) || t == s
    decreases s
  {
    if s != [] && t != [] {
      var child := if s[0] in n.children then n.children[s[0]] else Empty;
      if t[0] == s[0] {
        InsertMembers(child, s[1..], t[1..]);
        if s[0] !in n.children { EmptyHasNoMembers(t[1..]); }
        assert t == s <==> t[1..] == s[1..] by {
          if t[1..] == s[1..] { assert t == [t[0]] + t[1..] && s == [s[0]] + s[1..]; }
        }
      }
    }
  }

  /** Adding a string that is already stored leaves the tree exactly as it was. */
  lemma {:induction false} InsertIdempotent(n: Node, s: string)
    requires Member(n, s)
    ensures Insert(n, s) == n
    decreases s
  {
    if s != [] {
      InsertIdempotent(n.children[s[0]], s[1..]);
      assert n.children[s[0] := n.children[s[0]]] == n.children;
    }
  }

  /** `add` never creates a dead node: the path it walks ends on a marked node. */
  lemma {:induction false} InsertPruned(n: Node, s: string)
    requires Pruned(n)
    ensures Pruned(Insert(n, s)) && !Dead(Insert(n, s))
    decreases s
  {
    if s != [] {
      var child := if s[0] in n.children then n.children[s[0]] else Empty;
      InsertPruned(child, s[1..]);
      var r := Insert(n, s);
      assert s[0] in r.children;
      forall c | c in r.children
        ensures !Dead(r.children[c]) && Pruned(r.children[c])
      {
        if c != s[0] { assert r.children[c] == n.children[c]; }
      }
    }
  }

  /** After a successful `remove(s)`, `s` is no longer stored and every other string still is. */
  lemma {:induction false} DeleteMembers(n: Node, s: string, t: string)
    ensures Member(Delete(n, s), t) <==> Member(n, t) && t != s
    decreases s
  {
    if s == [] {
    } else if s[0] !in n.children {
      if t == s { assert !Member(n, t); }
    } else if t != [] && t[0] == s[0] {
      var d := Delete(n.children[s[0]], s[1..]);
      DeleteMembers(n.children[s[0]], s[1..], t[1..]);
      if Dead(d) { DeadHasNoMembers(d, t[1..]); }
      assert t == s <==> t[1..] == s[1..] by {
        if t[1..] == s[1..] { assert t == [t[0]] + t[1..] && s == [s[0]] + s[1..]; }
      }
    }
  }

  lemma DeadHasNoMembers(n: Node, s: string)
    requires Dead(n)
    ensures !Member(n, s)
  {
  }

  /** `remove` keeps the tree free of dead nodes below the root. */
  lemma {:induction false} DeletePruned(n: Node, s: string)
    requires Pruned(n)
    ensures Pruned(Delete(n, s))
    decreases s
  {
    if s != [] && s[0] in n.children {
      var d := Delete(n.children[s[0]], s[1..]);
      DeletePruned(n.children[s[0]], s[1..]);
      var r := Delete(n, s);
      forall c | c in r.children
        ensures !Dead(r.children[c]) && Pruned(r.children[c])
      {
        if c != s[0] { assert r.children[c] == n.children[c]; }
      }
    }
  }

  /** A node that is not dead and has no dead node below it stores some string. */
  ghost function SomeMember(n: Node): (s: string)
    requires Pruned(n) && !Dead(n)
    ensures Member(n, s)
  {
    if n.isString then []
    else
      var c :| c in n.children;
      [c] + SomeMember(n.children[c])
  }

  /** Once every string is removed, pruning has brought the tree back to a bare root. */
  lemma PrunedWithoutMembersIsEmpty(n: Node)
    requires Pruned(n)
    requires forall t :: !Member(n, t)
    ensures n == Empty
  {
    if !Dead(n) {
      var s := SomeMember(n);
      assert false;
    }
  }

  // ---------------------------------------------------------------------
  // Listing lemmas used by the collector

  lemma ListingAppend(a: seq<string>, b: seq<string>)
    requires Distinct(a) && Distinct(b) && PreOrder(a) && PreOrder(b)
    requires forall i, j :: 0 <= i < |a| && 0 <= j < |b| ==> a[i] != b[j] && !(b[j] < a[i])
    ensures Distinct(a + b) && PreOrder(a + b)
  {
  }

  /** Stepping one character past `prefix` in `x` is stepping along that edge of `n`. */
  lemma MemberStep(n: Node, prefix: string, x: string)
    requires prefix < x
    ensures Member(n, x[|prefix|..]) <==>
      x[|prefix|] in n.children && Member(n.children[x[|prefix|]], x[|prefix| + 1..])
  {
    var t := x[|prefix|..];
    assert t[0] == x[|prefix|] && t[1..] == x[|prefix| + 1..];
  }

  /** Strings continuing `prefix` with `c` neither equal nor prefix strings that do not. */
  lemma SeparateBranches(prefix: string, c: char, a: seq<string>, b: seq<string>)
    requires forall x :: x in a ==> prefix <= x && (x == prefix || x[|prefix|] != c)
    requires forall y :: y in b ==> prefix + [c] <= y
    ensures forall i, j :: 0 <= i < |a| && 0 <= j < |b| ==> a[i] != b[j] && !(b[j] < a[i])
  {
    forall i, j | 0 <= i < |a| && 0 <= j < |b| ensures a[i] != b[j] && !(b[j] < a[i]) {
      var x, y := a[i], b[j];
      assert x in a && y in b;
      assert y[|prefix|] == c;
    }
  }

  // ---------------------------------------------------------------------
  // The collector (`Node.get_by_prefix`)

  /**
   * Appends to `acc` every string stored below `n`, each prefixed by `prefix`:
   * the node's own string first, then its children's in the order they are picked.
   */
  method Collect(n: Node, prefix: string, acc: seq<string>) returns (r: seq<string>)
    ensures |acc| <= |r| && r[..|acc|] == acc
    ensures forall x :: x in r[|acc|..] <==> prefix <= x && Member(n, x[|prefix|..])
    ensures Distinct(r[|acc|..]) && PreOrder(r[|acc|..])
    decreases n
  {
    r := acc;
    if n.isString {
      r := r + [prefix];
    }
    var todo := n.children.Keys;
    CollectStart(n, prefix, r[|acc|..]);
    while todo != {}
      invariant todo <= n.children.Keys
      invariant |acc| <= |r| && r[..|acc|] == acc
      invariant forall x :: x in r[|acc|..] <==>
        prefix <= x && Member(n, x[|prefix|..]) && (x == prefix || x[|prefix|] !in todo)
      invariant Distinct(r[|acc|..]) && PreOrder(r[|acc|..])
      decreases todo
    {
      var c :| c in todo;
      var r' := Collect(n.children[c], prefix + [c], r);
      assert r'[|acc|..] == r[|acc|..] + r'[|r|..];
      CollectStep(n, prefix, c, r[|acc|..], r'[|r|..], todo);
      r, todo := r', todo - {c};
    }
  }

  /** Before any child is visited, the listing holds the node's own string, if it is one. */
  lemma CollectStart(n: Node, prefix: string, own: seq<string>)
    requires own == if n.isString then [prefix] else []
    ensures forall x :: x in own <==>
      prefix <= x && Member(n, x[|prefix|..]) && (x == prefix || x[|prefix|] !in n.children.Keys)
    ensures Distinct(own) && PreOrder(own)
  {
    forall x ensures x in own <==>
      prefix <= x && Member(n, x[|prefix|..]) && (x == prefix || x[|prefix|] !in n.children.Keys)
    {
      if prefix < x {
        MemberStep(n, prefix, x);
      } else if x == prefix {
        assert x[|prefix|..] == [];
      }
    }
  }

  /** Appending the strings of child `c` to the listing keeps the collector's invariant. */
  lemma CollectStep(n: Node, prefix: string, c: char, a: seq<string>, b: seq<string>, todo: set<char>)
    requires c in todo
    requires forall x :: x in a <==>
      prefix <= x && Member(n, x[|prefix|..]) && (x == prefix || x[|prefix|] !in todo)
    requires Distinct(a) && PreOrder(a)
    requires c in n.children
    requires forall x :: x in b <==> prefix + [c] <= x && Member(n.children[c], x[|prefix + [c]|..])
    requires Distinct(b) && PreOrder(b)
    ensures forall x :: x in a + b <==>
      prefix <= x && Member(n, x[|prefix|..]) && (x == prefix || x[|prefix|] !in todo - {c})
    ensures Distinct(a + b) && PreOrder(a + b)
  {
    SeparateBranches(prefix, c, a, b);
    ListingAppend(a, b);
    forall x ensures x in b <==> prefix <= x && x != prefix && x[|prefix|] == c && Member(n, x[|prefix|..]) {
      if prefix <= x && x != prefix {
        MemberStep(n, prefix, x);
        assert prefix + [c] <= x <==> x[|prefix|] == c;
      } else {
        assert !(prefix + [c] <= x);
      }
    }
  }

  // ---------------------------------------------------------------------
  // The tree object

  /** `PrefixTree`: a set of strings stored as a trie below `root`. */
  class PrefixTree {
    var root: Node
    /** The strings the tree represents. */
    ghost var Contents: set<string>

    ghost predicate Valid()
      reads this
    {
      && Pruned(root)
      && forall t :: t in Contents <==> Member(root, t)
    }

    /** `PrefixTree(iterable)`: adds each element of `items` in turn (no argument is the empty sequence). */
    constructor (items: seq<string>)
      ensures Valid()
      ensures Contents == set x | x in items
    {
      root := Empty;
      Contents := {};
      new;
      for i := 0 to |items|
        invariant Valid()
        invariant Contents == set x | x in items[..i]
      {
        Add(items[i]);
        assert items[..i + 1] == items[..i] + [items[i]];
      }
      assert items[..|items|] == items;
    }

    /** `add(s)`: walks (creating nodes as needed) to the end of `s` and marks that node. */
    method Add(s: string)
      requires Valid()
      modifies this
      ensures Valid()
      ensures root == Insert(old(root), s)
      ensures Contents == old(Contents) + {s}
    {
      var current := root;
      var visited: seq<(char, Node)> := [];
      for i := 0 to |s|
        invariant Rebuild(visited, Insert(current, s[i..])) == Insert(root, s)
      {
        var c := s[i];
        var next := if c in current.children then current.children[c] else Empty;
        assert s[i..][0] == c && s[i..][1..] == s[i + 1..];
        visited := [(c, current)] + visited;
        current := next;
      }
      current := current.(isString := true);
      for k := 0 to |visited|
        invariant Rebuild(visited[k..], current) == Insert(root, s)
      {
        assert visited[k..][1..] == visited[k + 1..];
        current := Attach(visited[k], current);
      }
      InsertPruned(root, s);
      forall t ensures Member(current, t) <==> Member(root, t) || t == s {
        InsertMembers(root, s, t);
      }
      root := current;
      Contents := Contents + {s};
    }

    /** `clear(s)`: replaces the root by a new node; its argument is ignored. */
    method Clear(s: string)
      modifies this
      ensures Valid()
      ensures Contents == {} && root == Empty
    {
      root := Empty;
      Contents := {};
    }

    /** `contains(s)`: false as soon as an edge is missing, else the end node's flag. */
    method Contains(s: string) returns (b: bool)
      requires Valid()
      ensures b == (Lookup(root, s).Some? && Lookup(root, s).value.isString)
      ensures b == (s in Contents)
    {
      LookupMember(root, s);
      var current := root;
      for i := 0 to |s|
        invariant Lookup(current, s[i..]) == Lookup(root, s)
      {
        assert s[i..][0] == s[i] && s[i..][1..] == s[i + 1..];
        if s[i] !in current.children {
          return false;
        }
        current := current.children[s[i]];
      }
      return current.isString;
    }

    /** `prefix(p)`: every stored string that starts with `p`, or `[]` when the path for `p` does not exist. */
    method Prefix(p: string) returns (r: seq<string>)
      requires Valid()
      ensures IsListing(r, Contents, p)
      ensures Lookup(root, p).None? ==> r == []
    {
      var current := root;
      for i := 0 to |p|
        invariant Lookup(current, p[i..]) == Lookup(root, p)
      {
        assert p[i..][0] == p[i] && p[i..][1..] == p[i + 1..];
        if p[i] !in current.children {
          forall x | p <= x ensures !Member(root, x) {
            MemberAppend(root, p, x[|p|..]);
            assert p + x[|p|..] == x;
          }
          return [];
        }
        current := current.children[p[i]];
      }
      r := Collect(current, p, []);
      assert r[0..] == r;
      forall x ensures x in r <==> x in Contents && p <= x {
        if p <= x {
          MemberAppend(root, p, x[|p|..]);
          assert p + x[|p|..] == x;
        }
      }
    }

    /** `remove(s)`: unmarks the end node and pops dead nodes bottom-up, never the root. */
    method Remove(s: string) returns (result: Outcome)
      requires Valid()
      modifies this
      ensures Valid()
      ensures result == if s in old(Contents) then Removed else KeyError("'" + s + "'")
      ensures result.Removed? ==> root == Delete(old(root), s) && Contents == old(Contents) - {s}
      ensures result.KeyError? ==> root == old(root) && Contents == old(Contents)
    {
      LookupMember(root, s);
      var visited: seq<(char, Node)> := [];
      var current := root;
      for i := 0 to |s|
        invariant Lookup(current, s[i..]) == Lookup(root, s)
        invariant RebuildPruned(visited, Delete(current, s[i..])) == Delete(root, s)
      {
        assert s[i..][0] == s[i] && s[i..][1..] == s[i + 1..];
        if s[i] !in current.children {
          return KeyError("'" + s + "'");
        }
        visited := [(s[i], current)] + visited;
        current := current.children[s[i]];
      }
      if current.isString {
        current := current.(isString := false);
      } else {
        return KeyError("'" + s + "'");
      }
      // Pop dead nodes bottom-up; stop at the first node that is marked or has a child.
      var k := 0;
      while k < |visited|
        invariant k <= |visited|
        invariant RebuildPruned(visited[k..], current) == Delete(root, s)
      {
        if current.isString || current.children != map[] {
          break;
        }
        assert visited[k..][1..] == visited[k + 1..];
        current := visited[k].1.(children := visited[k].1.children - {visited[k].0});
        k := k + 1;
      }
      // The ancestors above that node are unchanged; relink them to the new copy.
      while k < |visited|
        invariant k <= |visited|
        invariant k < |visited| ==> !Dead(current)
        invariant RebuildPruned(visited[k..], current) == Delete(root, s)
      {
        assert visited[k..][1..] == visited[k + 1..];
        current := Attach(visited[k], current);
        assert visited[k].0 in current.children;
        k := k + 1;
      }
      DeletePruned(root, s);
      forall t ensures Member(current, t) <==> Member(root, t) && t != s {
        DeleteMembers(root, s, t);
      }
      root := current;
      Contents := Contents - {s};
      result := Removed;
    }
  }
}
