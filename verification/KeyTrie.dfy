/** The trie from which the expression for keys that are not listed is written. */
module KeyTrie {
  import opened Wrappers
  import opened Gbnf
  import opened GbnfReader
  import opened GbnfSyntax
  import opened KeyExclusion

  /** The keys that go on after `p`, from there on. */
  ghost function Suffixes(keys: set<Text>, p: Text): set<Text> {
    set s | s in keys && p <= s :: s[|p|..]
  }

  lemma SuffixesAfter(keys: set<Text>, p: Text, c: Code)
    ensures After(Suffixes(keys, p), c) == Suffixes(keys, p + [c])
    ensures c in Heads(Suffixes(keys, p)) <==> Begins(keys, p + [c])
  {
    var q := p + [c];
    forall t
      ensures t in After(Suffixes(keys, p), c) <==> t in Suffixes(keys, q)
    {
      if t in After(Suffixes(keys, p), c) {
        var u :| u in Suffixes(keys, p) && u != [] && u[0] == c && u[1..] == t;
        var s :| s in keys && p <= s && s[|p|..] == u;
        assert q <= s && s[|q|..] == t;
      }
      if t in Suffixes(keys, q) {
        var s :| s in keys && q <= s && s[|q|..] == t;
        var u := s[|p|..];
        assert p <= s && u in Suffixes(keys, p) && u[0] == c && u[1..] == t;
      }
    }
    if c in Heads(Suffixes(keys, p)) {
      var u :| u in Suffixes(keys, p) && u != [] && u[0] == c;
      var s :| s in keys && p <= s && s[|p|..] == u;
      assert q <= s;
    }
    if Begins(keys, q) {
      var s :| s in keys && q <= s;
      assert p <= s && s[|p|..] in Suffixes(keys, p) && s[|p|..][0] == c;
    }
  }

  class TrieNode {
    var children: Children
    var isEndOfString: bool

    constructor ()
      ensures children == map[] && !isEndOfString
    {
      children := map[];
      isEndOfString := false;
    }
  }

  type Children = map<Code, TrieNode>

  /** The nodes by the characters that lead to them from the root. */
  type Nodes = map<Text, TrieNode>

  /** There is a node for the empty text, with each text for its parts, and for different texts a different one. */
  ghost predicate Apart(root: TrieNode, nodes: Nodes) {
    && [] in nodes
    && nodes[[]] == root
    && (forall p, q :: p in nodes && q in nodes && nodes[p] == nodes[q] ==> p == q)
    && (forall p {:trigger WithPart(nodes, p)} :: p in nodes ==> WithPart(nodes, p))
  }

  ghost predicate WithPart(nodes: Nodes, p: Text) {
    p != [] ==> p[..|p| - 1] in nodes
  }

  /** The edges of each node are to the nodes for one character more. */
  ghost predicate Linked(nodes: Nodes, edges: map<Text, Children>) {
    && edges.Keys == nodes.Keys
    && (forall p: Text, c: Code {:trigger Edge(nodes, edges, p, c)} :: p in edges ==> Edge(nodes, edges, p, c))
  }

  ghost predicate Edge(nodes: Nodes, edges: map<Text, Children>, p: Text, c: Code)
    requires p in edges
  {
    if c in edges[p] then p + [c] in nodes && edges[p][c] == nodes[p + [c]] else p + [c] !in nodes
  }

  lemma ApartMore(root: TrieNode, nodes: Nodes, p: Text, c: Code, child: TrieNode)
    requires Apart(root, nodes) && p in nodes && child !in nodes.Values && p + [c] !in nodes
    ensures Apart(root, nodes[p + [c] := child])
  {
    var more := nodes[p + [c] := child];
    assert (p + [c])[..|p|] == p;
    assert forall q :: q in nodes ==> nodes[q] in nodes.Values;
    forall q | q in more
      ensures WithPart(more, q)
    {
      assert q in nodes ==> WithPart(nodes, q);
    }
  }

  lemma LinkedMore(root: TrieNode, nodes: Nodes, edges: map<Text, Children>, p: Text, c: Code, child: TrieNode)
    requires Apart(root, nodes) && Linked(nodes, edges) && p in nodes && c !in edges[p]
    ensures p + [c] !in nodes
    ensures Linked(nodes[p + [c] := child], edges[p + [c] := map[]][p := edges[p][c := child]])
  {
    var q := p + [c];
    var more, links := nodes[q := child], edges[q := map[]][p := edges[p][c := child]];
    assert Edge(nodes, edges, p, c);
    forall r: Text, d: Code | r in links
      ensures Edge(more, links, r, d)
    {
      Extended(p, c, r, d);
      if r == q {
        assert (r + [d])[..|r|] == r;
        assert r + [d] in nodes ==> WithPart(nodes, r + [d]);
      } else {
        assert Edge(nodes, edges, r, d);
      }
    }
  }

  lemma Extended(p: Text, c: Code, r: Text, d: Code)
    ensures r + [d] == p + [c] <==> r == p && c == d
  {
    assert (r + [d])[..|r|] == r && (p + [c])[..|p|] == p;
    assert (r + [d])[|r|] == d && (p + [c])[|p|] == c;
  }

  predicate PartOf(p: Text, s: Text) {
    p <= s
  }

  /** The branches for the first `n` of the characters `cs`, if there are any. */
  function Upto(keys: set<Text>, cs: seq<Code>, n: nat): Syntax
    requires n <= |cs| && forall c :: c in cs ==> c in Heads(keys)
  {
    if n == 0 then Nothing else Branches(keys, cs, n)
  }

  method OneMore(x: Syntax, branch: Syntax, ghost keys: set<Text>, ghost cs: seq<Code>, i: nat) returns (r: Syntax)
    requires i < |cs| && forall c :: c in cs ==> c in Heads(keys)
    requires x == Upto(keys, cs, i) && branch == Branch(keys, cs[i])
    ensures r == Upto(keys, cs, i + 1)
  {
    r := if i == 0 then branch else Or(x, branch);
  }

  class Trie {
    const root: TrieNode
    ghost var nodes: Nodes
    /** The keys put in. */
    ghost var keys: set<Text>

    ghost function Edges(): map<Text, Children>
      reads this, nodes.Values
    {
      map p | p in nodes :: nodes[p].children
    }

    /** The nodes are those on the way to a key, or to `open`. */
    ghost predicate Spans(open: Text)
      reads this
    {
      forall p :: p in nodes <==> Begins(keys, p) || PartOf(p, open)
    }

    ghost predicate KeysMarked()
      reads this, nodes.Values
    {
      forall p :: p in nodes ==> (nodes[p].isEndOfString <==> p in keys)
    }

    ghost predicate Open(open: Text)
      reads this, nodes.Values
    {
      Apart(root, nodes) && Linked(nodes, Edges()) && Spans(open) && KeysMarked()
    }

    ghost predicate Valid()
      reads this, nodes.Values
    {
      Open([])
    }

    constructor ()
      ensures Valid() && keys == {}
      ensures fresh(nodes.Values)
    {
      root := new TrieNode();
      new;
      nodes := map[[] := root];
      keys := {};
    }

    method Insert(s: Text)
      requires Valid()
      modifies this, nodes.Values
      ensures Valid() && keys == old(keys) + {s}
      ensures fresh(nodes.Values - old(nodes.Values))
    {
      var node := root;
      var i := 0;
      while i < |s|
        invariant i <= |s| && s[..i] in nodes && nodes[s[..i]] == node
        invariant Open(s[..i]) && keys == old(keys)
        invariant fresh(nodes.Values - old(nodes.Values))
      {
        node := Step(node, s, i);
        i := i + 1;
      }
      assert s[..|s|] == s;
      Mark(node, s);
    }

    /** The last node is that of a key. */
    method Mark(node: TrieNode, s: Text)
      requires Open(s) && s in nodes && nodes[s] == node
      modifies this`keys, node`isEndOfString
      ensures Valid() && keys == old(keys) + {s} && nodes == old(nodes)
    {
      ghost var edges := Edges();
      BeginsOneMore(keys, s);
      node.isEndOfString := true;
      keys := keys + {s};
      assert Edges() == edges;
    }

    /** The child of a node for the next character, made unless it is there. */
    method Step(node: TrieNode, s: Text, i: nat) returns (child: TrieNode)
      requires i < |s| && Open(s[..i]) && s[..i] in nodes && nodes[s[..i]] == node
      modifies this`nodes, node`children
      ensures Open(s[..i + 1]) && keys == old(keys)
      ensures s[..i + 1] in nodes && nodes[s[..i + 1]] == child
      ensures old(nodes.Values) <= nodes.Values && fresh(nodes.Values - old(nodes.Values))
    {
      var c := s[i];
      PartsOneMore(s, i);
      assert Edge(nodes, Edges(), s[..i], c);
      if c !in node.children {
        child := AddChild(node, s[..i], c);
      }
      assert Edge(nodes, Edges(), s[..i], c);
      child := node.children[c];
    }

    method AddChild(node: TrieNode, ghost p: Text, c: Code) returns (child: TrieNode)
      requires Apart(root, nodes) && Linked(nodes, Edges()) && KeysMarked()
      requires p in nodes && nodes[p] == node && c !in node.children && p + [c] !in keys
      modifies this`nodes, node`children
      ensures Apart(root, nodes) && Linked(nodes, Edges()) && KeysMarked()
      ensures fresh(child) && nodes == old(nodes)[p + [c] := child]
      ensures node.children == old(node.children)[c := child]
    {
      child := new TrieNode();
      ghost var edges := Edges();
      LinkedMore(root, nodes, edges, p, c, child);
      ApartMore(root, nodes, p, c, child);
      node.children := node.children[c := child];
      nodes := nodes[p + [c] := child];
      ghost var linked: Children := edges[p][c := child];
      assert Edges() == edges[p + [c] := map[]][p := linked];
    }

    /** A node has a child for each character that the keys which begin like it go on with. */
    lemma ChildrenAreHeads(p: Text)
      requires Valid() && p in nodes
      ensures Heads(Suffixes(keys, p)) == nodes[p].children.Keys
      ensures nodes[p].isEndOfString <==> [] in Suffixes(keys, p)
    {
      forall c: Code
        ensures c in Heads(Suffixes(keys, p)) <==> c in nodes[p].children
      {
        SuffixesAfter(keys, p, c);
        assert Edge(nodes, Edges(), p, c);
        assert p + [c] in nodes <==> Begins(keys, p + [c]) || PartOf(p + [c], []);
      }
      if p in keys {
        assert p[|p|..] == [];
      }
      if [] in Suffixes(keys, p) {
        var s :| s in keys && p <= s && s[|p|..] == [];
        assert s == p;
      }
    }

    /** The alternatives at a node: those between the keys that begin like it. */
    method Visit(node: TrieNode, ghost p: Text) returns (x: Syntax)
      requires Valid() && p in nodes && nodes[p] == node
      ensures x == Alternatives(Suffixes(keys, p))
      decreases Longest(Suffixes(keys, p)), 3
    {
      ChildrenAreHeads(p);
      var cs := Sorted(node.children.Keys);
      assert cs == [] <==> node.children == map[] by {
        if c :| c in node.children.Keys {
          assert c in cs;
        }
      }
      x := VisitChildren(node, p, Suffixes(keys, p), cs);
      if node.children != map[] {
        x := Or(x, Seq(OthersSet(cs), UNITS_FROM_NONE));
      }
    }

    /** The branches to the children of a node, in the order of their characters. */
    method VisitChildren(node: TrieNode, ghost p: Text, ghost suffixes: set<Text>, cs: seq<Code>) returns (x: Syntax)
      requires Valid() && p in nodes && nodes[p] == node && suffixes == Suffixes(keys, p)
      requires forall c :: c in cs ==> c in node.children && c in Heads(suffixes)
      ensures x == Upto(suffixes, cs, |cs|)
      decreases Longest(suffixes), 2
    {
      x := Nothing;
      var i := 0;
      while i < |cs|
        invariant i <= |cs| && Valid()
        invariant x == Upto(suffixes, cs, i)
        modifies {}
      {
        x := AddBranch(x, node, p, suffixes, cs, i);
        i := i + 1;
      }
    }

    method AddBranch(x: Syntax, node: TrieNode, ghost p: Text, ghost suffixes: set<Text>, cs: seq<Code>, i: nat)
      returns (r: Syntax)
      requires Valid() && p in nodes && nodes[p] == node && suffixes == Suffixes(keys, p) && i < |cs|
      requires forall c :: c in cs ==> c in node.children && c in Heads(suffixes)
      requires x == Upto(suffixes, cs, i)
      ensures r == Upto(suffixes, cs, i + 1)
      decreases Longest(suffixes), 1
    {
      var branch := VisitChild(node, p, cs[i]);
      r := OneMore(x, branch, suffixes, cs, i);
    }

    /** All the alternatives, which may be left out unless the empty key is in. */
    method Body() returns (x: Syntax)
      requires Valid()
      ensures x == KeyBody(keys)
    {
      WholeSuffixes(keys);
      ChildrenAreHeads([]);
      x := Visit(root, []);
      x := Paren(true, x);
      if !root.isEndOfString {
        x := Marked(x, Bounds(0, Some(1)), "?");
      }
    }

    method VisitChild(node: TrieNode, ghost p: Text, c: Code) returns (x: Syntax)
      requires Valid() && p in nodes && nodes[p] == node && c in node.children
      ensures c in Heads(Suffixes(keys, p)) && x == Branch(Suffixes(keys, p), c)
      decreases Longest(Suffixes(keys, p)), 0
    {
      var child := node.children[c];
      assert Edge(nodes, Edges(), p, c);
      ChildrenAreHeads(p);
      ChildrenAreHeads(p + [c]);
      SuffixesAfter(keys, p, c);
      AfterShorter(Suffixes(keys, p), c);
      if child.children != map[] {
        var inner := Visit(child, p + [c]);
        x := Seq(SingleSet(c), Paren(false, inner));
      } else if child.isEndOfString {
        x := Seq(SingleSet(c), UNITS_FROM_ONE);
      } else {
        x := SingleSet(c);
      }
    }
  }

  /** The strings of a list. */
  function Listing(strings: seq<Text>): set<Text> {
    set s | s in strings
  }

  lemma ListingMore(strings: seq<Text>, i: nat)
    requires i < |strings|
    ensures Listing(strings[..i + 1]) == Listing(strings[..i]) + {strings[i]}
  {
    assert strings[..i + 1] == strings[..i] + [strings[i]];
  }

  method Fill(strings: seq<Text>) returns (trie: Trie)
    ensures fresh(trie) && fresh(trie.nodes.Values)
    ensures trie.Valid() && trie.keys == Listing(strings)
  {
    trie := new Trie();
    var i := 0;
    assert Listing(strings[..0]) == {};
    while i < |strings|
      invariant i <= |strings| && trie.Valid() && trie.keys == Listing(strings[..i])
      invariant fresh(trie) && fresh(trie.nodes.Values)
    {
      ListingMore(strings, i);
      trie.Insert(strings[i]);
      i := i + 1;
    }
    assert strings[..i] == strings;
  }

  /** A key between quotes that is none of the strings, in whatever order they come, and the space after it. */
  method BuildNotStrings(strings: seq<Text>) returns (x: Syntax)
    ensures x == NotStrings(Listing(strings))
  {
    var trie := Fill(strings);
    var body := trie.Body();
    x := Seq(SingleSet(QUOTE), Seq(body, Seq(SingleSet(QUOTE), Named(SPACE_NAME))));
  }

  lemma WholeSuffixes(keys: set<Text>)
    ensures Suffixes(keys, []) == keys
  {
    forall s
      ensures s in Suffixes(keys, []) <==> s in keys
    {
      assert s[0..] == s;
    }
  }

  lemma BeginsOneMore(keys: set<Text>, s: Text)
    ensures forall p :: Begins(keys + {s}, p) <==> Begins(keys, p) || PartOf(p, s)
  {
    forall p
      ensures Begins(keys + {s}, p) <==> Begins(keys, p) || p <= s
    {
      if t :| t in keys && p <= t {
        assert t in keys + {s};
      }
      if p <= s {
        assert s in keys + {s};
      }
    }
  }

  lemma PartsOneMore(s: Text, i: nat)
    requires i < |s|
    ensures s[..i + 1] == s[..i] + [s[i]]
    ensures forall p :: PartOf(p, s[..i + 1]) <==> PartOf(p, s[..i]) || p == s[..i + 1]
  {
    forall p
      ensures PartOf(p, s[..i + 1]) <==> PartOf(p, s[..i]) || p == s[..i + 1]
    {
      if p <= s[..i + 1] && |p| <= i {
        assert p == s[..i + 1][..|p|] == s[..i][..|p|];
      }
    }
  }
}
