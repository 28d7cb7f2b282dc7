/** Identifiers under the tree edits. Each edit takes away the identifiers of the node it
    removes and adds only the fresh ones it draws from the counter, so a tree whose
    identifiers are unique and below the counter stays so, and a lookup by identifier
    keeps naming the one node the identifier was given to. The parse starts such a tree. */
module EditProperties {
  import opened MarkdownTag
  import opened MarkdownNode
  import opened MarkdownParser
  import opened ScannerProperties

  /** The identifiers of a tree, counted with multiplicity. */
  function Ids(n: Node): multiset<nat> {
    multiset(TreeIds(n))
  }

  /** The identifiers of a list of trees, counted with multiplicity. */
  function ForestIdBag(nodes: seq<Node>): multiset<nat> {
    multiset(ForestIds(nodes))
  }

  /** Every identifier of the tree occurs once and lies below `hi`. */
  predicate UniqueIdsBelow(n: Node, hi: nat) {
    forall x | x in Ids(n) :: Ids(n)[x] == 1 && x < hi
  }

  // ---------------------------------------------------------------------------
  // What each edit does to the identifiers

  /** Deleting takes away exactly the identifiers of the found child's subtree. */
  lemma DeleteDescendantIds(root: Node, id: nat)
    ensures FindSpec(root, id).None? ==> Ids(DeleteDescendant(root, id)) == Ids(root)
    ensures FindSpec(root, id).Some? ==>
      var l := FindSpec(root, id).value;
      Ids(DeleteDescendant(root, id)) + Ids(SubtreeAt(root, l.parentPath).children[l.index]) == Ids(root)
  {
    match FindSpec(root, id)
    case None =>
    case Some(l) =>
      var before := SubtreeAt(root, l.parentPath).children;
      var kids := RemoveAt(before, l.index);
      var r := DeleteDescendant(root, id);
      assert r == ReplaceChildren(root, l.parentPath, kids);
      ReplaceChildrenIds(root, l.parentPath, kids);
      RemoveAtIds(before, l.index);
      DeleteBag(Ids(r), ForestIdBag(before), Ids(root), ForestIdBag(kids), Ids(before[l.index]));
  }

  /** Duplicating adds exactly the two fresh identifiers. */
  lemma DuplicateDescendantIds(root: Node, id: nat, nextId: nat)
    ensures FindSpec(root, id).None? ==> Ids(DuplicateDescendant(root, id, nextId).root) == Ids(root)
    ensures FindSpec(root, id).Some? ==>
      Ids(DuplicateDescendant(root, id, nextId).root) == Ids(root) + multiset{nextId, nextId + 1}
  {
    match FindSpec(root, id)
    case None =>
    case Some(l) =>
      var before := SubtreeAt(root, l.parentPath).children;
      var copies := DuplicateNodes(before[l.index], nextId);
      var kids := InsertAt(before, l.index + 1, copies);
      var r := DuplicateDescendant(root, id, nextId).root;
      assert r == ReplaceChildren(root, l.parentPath, kids);
      ReplaceChildrenIds(root, l.parentPath, kids);
      InsertAtIds(before, l.index + 1, copies);
      CopiesIds(before[l.index], nextId);
      InsertBag(Ids(r), ForestIdBag(before), Ids(root), ForestIdBag(kids), ForestIdBag(copies));
  }

  /** The two inserted nodes carry the two fresh identifiers. */
  lemma CopiesIds(original: Node, nextId: nat)
    ensures ForestIdBag(DuplicateNodes(original, nextId)) == multiset{nextId, nextId + 1}
  {
    var copies := DuplicateNodes(original, nextId);
    assert copies == [copies[0]] + [copies[1]];
    ForestIdsConcat([copies[0]], [copies[1]]);
    ForestIdsSingle(copies[0]);
    ForestIdsSingle(copies[1]);
    assert TreeIds(copies[0]) == [nextId] && TreeIds(copies[1]) == [nextId + 1];
  }

  /** Swapping takes away the identifiers of the found child's subtree and adds the one
      fresh identifier of its replacement. */
  lemma SwapTagOfNodeIds(root: Node, id: nat, tag: Tag, nextId: nat)
    ensures FindSpec(root, id).None? ==> Ids(SwapTagOfNode(root, id, tag, nextId).root) == Ids(root)
    ensures FindSpec(root, id).Some? ==>
      var l := FindSpec(root, id).value;
      Ids(SwapTagOfNode(root, id, tag, nextId).root) + Ids(SubtreeAt(root, l.parentPath).children[l.index]) ==
        Ids(root) + multiset{nextId}
  {
    match FindSpec(root, id)
    case None =>
    case Some(l) =>
      var before := SubtreeAt(root, l.parentPath).children;
      var replacement := SwapReplacement(before[l.index], tag, nextId);
      var kids := before[l.index := replacement];
      var r := SwapTagOfNode(root, id, tag, nextId).root;
      assert r == ReplaceChildren(root, l.parentPath, kids);
      ReplaceChildrenIds(root, l.parentPath, kids);
      UpdateIds(before, l.index, replacement);
      assert TreeIds(replacement) == [nextId];
      TradeBag(Ids(r), ForestIdBag(before), Ids(root), ForestIdBag(kids), Ids(before[l.index]), Ids(replacement));
  }

  // ---------------------------------------------------------------------------
  // Unique identifiers are kept

  lemma DeleteKeepsIdsUnique(root: Node, id: nat, nextId: nat)
    requires UniqueIdsBelow(root, nextId)
    ensures UniqueIdsBelow(DeleteDescendant(root, id), nextId)
  {
    DeleteDescendantIds(root, id);
    if FindSpec(root, id).Some? {
      var l := FindSpec(root, id).value;
      var r := Ids(DeleteDescendant(root, id));
      var gone := Ids(SubtreeAt(root, l.parentPath).children[l.index]);
      forall x | x in r
        ensures r[x] == 1 && x < nextId
      {
        assert (r + gone)[x] == Ids(root)[x];
      }
    }
  }

  lemma DuplicateKeepsIdsUnique(root: Node, id: nat, nextId: nat)
    requires UniqueIdsBelow(root, nextId)
    ensures var r := DuplicateDescendant(root, id, nextId); UniqueIdsBelow(r.root, r.nextId)
  {
    DuplicateDescendantIds(root, id, nextId);
    assert nextId !in Ids(root) && nextId + 1 !in Ids(root);
  }

  lemma SwapKeepsIdsUnique(root: Node, id: nat, tag: Tag, nextId: nat)
    requires UniqueIdsBelow(root, nextId)
    ensures var r := SwapTagOfNode(root, id, tag, nextId); UniqueIdsBelow(r.root, r.nextId)
  {
    SwapTagOfNodeIds(root, id, tag, nextId);
    if FindSpec(root, id).Some? {
      var l := FindSpec(root, id).value;
      var r := Ids(SwapTagOfNode(root, id, tag, nextId).root);
      var gone := Ids(SubtreeAt(root, l.parentPath).children[l.index]);
      assert nextId !in Ids(root);
      forall x | x in r
        ensures r[x] == 1 && x < nextId + 1
      {
        assert (r + gone)[x] == (Ids(root) + multiset{nextId})[x];
      }
    }
  }

  /** The root node a parse hands to the document, taking the identifier after the
      parse's, has unique identifiers below the identifier after its own. */
  lemma ParsedRootIdsUnique(tags: seq<Tag>, text: string, firstId: nat)
    requires AllWellFormed(tags)
    ensures var p := Parse(tags, text, firstId);
      UniqueIdsBelow(NewTextNode("", 0, p.nextId).(children := p.nodes), p.nextId + 1)
  {
    var p := Parse(tags, text, firstId);
    ParseFaithful(tags, text, firstId);
    AscendingUnique(ForestIds(p.nodes), firstId, p.nextId);
    var root := NewTextNode("", 0, p.nextId).(children := p.nodes);
    assert TreeIds(root) == [p.nextId] + ForestIds(p.nodes);
    assert p.nextId !in ForestIdBag(p.nodes);
  }

  // ---------------------------------------------------------------------------
  // Helpers

  /** A strictly increasing sequence below `hi` holds each value once. */
  lemma {:induction false} AscendingUnique(ids: seq<nat>, lo: nat, hi: nat)
    requires Ascending(ids, lo, hi)
    ensures forall x | x in multiset(ids) :: multiset(ids)[x] == 1 && x < hi
    decreases |ids|
  {
    if |ids| > 0 {
      var front := ids[..|ids| - 1];
      var last := ids[|ids| - 1];
      assert Ascending(front, lo, hi);
      AscendingUnique(front, lo, hi);
      assert ids == front + [last];
      assert last !in front by {
        forall i | 0 <= i < |front|
          ensures front[i] != last
        {
          assert front[i] == ids[i];
        }
      }
    }
  }

  lemma {:induction false} ForestIdsConcat(a: seq<Node>, b: seq<Node>)
    ensures ForestIds(a + b) == ForestIds(a) + ForestIds(b)
    decreases |b|
  {
    if |b| == 0 {
      assert a + b == a;
    } else {
      var ab, front, last := a + b, b[..|b| - 1], b[|b| - 1];
      ForestIdsConcat(a, front);
      assert ab[..|ab| - 1] == a + front && ab[|ab| - 1] == last;
      assert ForestIds(ab) == ForestIds(a + front) + TreeIds(last);
      assert ForestIds(b) == ForestIds(front) + TreeIds(last);
    }
  }

  lemma ForestIdsSingle(x: Node)
    ensures ForestIds([x]) == TreeIds(x)
  {
    assert [x][..0] == [];
  }

  /** Removing the element at `i` takes away exactly its identifiers. */
  lemma RemoveAtIds(s: seq<Node>, i: nat)
    requires i < |s|
    ensures ForestIdBag(RemoveAt(s, i)) + Ids(s[i]) == ForestIdBag(s)
  {
    assert s == s[..i] + [s[i]] + s[i + 1..];
    ForestIdsConcat(s[..i] + [s[i]], s[i + 1..]);
    ForestIdsConcat(s[..i], [s[i]]);
    ForestIdsConcat(s[..i], s[i + 1..]);
    ForestIdsSingle(s[i]);
  }

  /** Inserting adds exactly the identifiers of the inserted trees. */
  lemma InsertAtIds(s: seq<Node>, i: nat, xs: seq<Node>)
    requires i <= |s|
    ensures ForestIdBag(InsertAt(s, i, xs)) == ForestIdBag(s) + ForestIdBag(xs)
  {
    assert s == s[..i] + s[i..];
    ForestIdsConcat(s[..i] + xs, s[i..]);
    ForestIdsConcat(s[..i], xs);
    ForestIdsConcat(s[..i], s[i..]);
  }

  /** Replacing the element at `i` trades its identifiers for those of the new tree. */
  lemma UpdateIds(s: seq<Node>, i: nat, x: Node)
    requires i < |s|
    ensures ForestIdBag(s[i := x]) + Ids(s[i]) == ForestIdBag(s) + Ids(x)
  {
    assert s[i := x] == s[..i] + [x] + s[i + 1..];
    assert s == s[..i] + [s[i]] + s[i + 1..];
    ForestIdsConcat(s[..i] + [x], s[i + 1..]);
    ForestIdsConcat(s[..i], [x]);
    ForestIdsConcat(s[..i] + [s[i]], s[i + 1..]);
    ForestIdsConcat(s[..i], [s[i]]);
    ForestIdsSingle(x);
    ForestIdsSingle(s[i]);
  }

  /** Replacing the children at the end of a path trades their identifiers for those of
      the new children. */
  lemma {:induction false} ReplaceChildrenIds(n: Node, path: seq<nat>, kids: seq<Node>)
    requires ValidPath(n, path)
    ensures Ids(ReplaceChildren(n, path, kids)) + ForestIdBag(SubtreeAt(n, path).children) ==
      Ids(n) + ForestIdBag(kids)
    decreases |path|
  {
    if |path| > 0 {
      var c := n.children[path[0]];
      var c' := ReplaceChildren(c, path[1..], kids);
      var upd := n.children[path[0] := c'];
      var r := n.(children := upd);
      assert ReplaceChildren(n, path, kids) == r;
      assert SubtreeAt(n, path) == SubtreeAt(c, path[1..]);
      ReplaceChildrenIds(c, path[1..], kids);
      UpdateIds(n.children, path[0], c');
      var me := multiset{n.identifier};
      assert Ids(r) == me + ForestIdBag(upd);
      assert Ids(n) == me + ForestIdBag(n.children);
      PathBag(Ids(r), Ids(n), me, ForestIdBag(upd), ForestIdBag(n.children), Ids(c), Ids(c'),
              ForestIdBag(SubtreeAt(c, path[1..]).children), ForestIdBag(kids));
    }
  }

  // ---------------------------------------------------------------------------
  // Counting identifiers one at a time

  lemma PathBag(r: multiset<nat>, n: multiset<nat>, me: multiset<nat>, up: multiset<nat>, ch: multiset<nat>,
                c: multiset<nat>, c': multiset<nat>, s: multiset<nat>, k: multiset<nat>)
    requires r == me + up && n == me + ch && up + c == ch + c' && c' + s == c + k
    ensures r + s == n + k
  {
    forall x
      ensures (r + s)[x] == (n + k)[x]
    {
      assert (up + c)[x] == (ch + c')[x];
      assert (c' + s)[x] == (c + k)[x];
    }
  }

  lemma DeleteBag(r: multiset<nat>, b: multiset<nat>, root: multiset<nat>, k: multiset<nat>, x: multiset<nat>)
    requires r + b == root + k && k + x == b
    ensures r + x == root
  {
    forall y
      ensures (r + x)[y] == root[y]
    {
      assert (r + b)[y] == (root + k)[y];
      assert (k + x)[y] == b[y];
    }
  }

  lemma InsertBag(r: multiset<nat>, b: multiset<nat>, root: multiset<nat>, k: multiset<nat>, c: multiset<nat>)
    requires r + b == root + k && k == b + c
    ensures r == root + c
  {
    forall y
      ensures r[y] == (root + c)[y]
    {
      assert (r + b)[y] == (root + k)[y];
    }
  }

  lemma TradeBag(r: multiset<nat>, b: multiset<nat>, root: multiset<nat>, k: multiset<nat>,
                 x: multiset<nat>, y: multiset<nat>)
    requires r + b == root + k && k + x == b + y
    ensures r + x == root + y
  {
    forall z
      ensures (r + x)[z] == (root + y)[z]
    {
      assert (r + b)[z] == (root + k)[z];
      assert (k + x)[z] == (b + y)[z];
    }
  }
}
