/** What the scanner promises about the nodes it returns, for any catalog of well-formed
    tags: the nodes spell out the input again, each node sits where its markup starts
    (a text node: where its run ends), text nodes are non-empty leaves, each tag node
    holds the parse of its content unless the tag forbids nesting, and identifiers
    increase strictly in pre-order. */
module ScannerProperties {
  import opened Strings
  import opened MarkdownTag
  import opened MarkdownNode
  import opened MarkdownParser
  import opened Sequences

  // ---------------------------------------------------------------------------
  // The properties

  /** A tag node's position is where its open delimiter starts, that is after the full
      text of the nodes before it; a text node's position is where its run ends. */
  predicate Positioned(nodes: seq<Node>)
    decreases |nodes|
  {
    |nodes| == 0 ||
    (Positioned(nodes[..|nodes| - 1]) &&
     nodes[|nodes| - 1].position ==
       (if nodes[|nodes| - 1].tag.Some? then |ConcatFullTexts(nodes[..|nodes| - 1])| else |ConcatFullTexts(nodes)|))
  }

  /** A text node is a non-empty leaf; a tag node carries a tag of the catalog, and its
      children are what the scanner makes of its content, with identifiers from the one
      after its own. */
  predicate WellShaped(tags: seq<Tag>, n: Node)
    requires AllScannable(tags)
  {
    match n.tag
    case None => |n.textContent| > 0 && n.children == []
    case Some(tag) => tag in tags && n.children == ParseContent(tags, tag, n.textContent, n.identifier + 1).nodes
  }

  predicate AllWellShaped(tags: seq<Tag>, nodes: seq<Node>)
    requires AllScannable(tags)
    decreases |nodes|
  {
    |nodes| == 0 || (AllWellShaped(tags, nodes[..|nodes| - 1]) && WellShaped(tags, nodes[|nodes| - 1]))
  }

  /** The identifiers of a subtree, in pre-order. */
  function TreeIds(n: Node): seq<nat>
    decreases n
  {
    [n.identifier] + ForestIds(n.children)
  }

  function ForestIds(nodes: seq<Node>): seq<nat>
    decreases nodes
  {
    if |nodes| == 0 then [] else ForestIds(nodes[..|nodes| - 1]) + TreeIds(nodes[|nodes| - 1])
  }

  /** Strictly increasing, drawn from [lo, hi). */
  predicate Ascending(ids: seq<nat>, lo: nat, hi: nat) {
    lo <= hi &&
    (forall i :: 0 <= i < |ids| ==> lo <= ids[i] < hi) &&
    (forall i, j :: 0 <= i < j < |ids| ==> ids[i] < ids[j])
  }

  /** What holds of the scanner's variables at every step: the nodes and the pending run
      account for the input up to the index, the nodes are positioned, and the
      identifiers used so far increase strictly. */
  predicate Good(text: string, firstId: nat, s: ScanState)
    requires s.index <= |text|
  {
    ConcatFullTexts(s.nodes) + s.acc == text[..s.index] &&
    Positioned(s.nodes) &&
    Ascending(ForestIds(s.nodes), firstId, s.nextId)
  }

  // ---------------------------------------------------------------------------
  // The theorem

  /** The parse of any text over a well-formed catalog: the full texts of the nodes
      concatenate to the text, positions are as described, the shapes are as described,
      and the identifiers of the whole forest increase strictly and lie in
      [firstId, nextId). */
  lemma {:induction false} ParseFaithful(tags: seq<Tag>, text: string, firstId: nat)
    requires AllWellFormed(tags)
    ensures ConcatFullTexts(Parse(tags, text, firstId).nodes) == text
    ensures Positioned(Parse(tags, text, firstId).nodes)
    ensures AllWellShaped(tags, Parse(tags, text, firstId).nodes)
    ensures Ascending(ForestIds(Parse(tags, text, firstId).nodes), firstId, Parse(tags, text, firstId).nextId)
    decreases |text|, 3, 0
  {
    var s := ScanState(0, [], "", firstId, false);
    assert Good(text, firstId, s);
    LoopFaithful(tags, text, firstId, s);
    LoopShaped(tags, text, s);
  }

  /** The same for the children the scanner gives a found tag node. */
  lemma {:induction false} ParseContentAscending(tags: seq<Tag>, tag: Tag, content: string, firstId: nat, sub: ParseResult)
    requires AllWellFormed(tags) && sub == ParseContent(tags, tag, content, firstId)
    ensures Ascending(ForestIds(sub.nodes), firstId, sub.nextId)
    decreases |content|, 3, 1
  {
    if !Has(tag.options, DisallowsNestedTags) {
      ParseFaithful(tags, content, firstId);
    }
  }

  lemma {:induction false} LoopFaithful(tags: seq<Tag>, text: string, firstId: nat, s: ScanState)
    requires AllWellFormed(tags) && s.index <= |text|
    requires Good(text, firstId, s)
    ensures ConcatFullTexts(Loop(tags, text, s).nodes) == text
    ensures Positioned(Loop(tags, text, s).nodes)
    ensures Ascending(ForestIds(Loop(tags, text, s).nodes), firstId, Loop(tags, text, s).nextId)
    decreases |text|, 2, |text| - s.index
  {
    if s.index >= |text| {
      FlushGood(text, firstId, s);
      assert text[..s.index] == text;
    } else {
      StepGood(tags, text, firstId, s);
      LoopFaithful(tags, text, firstId, Step(tags, text, s));
    }
  }

  lemma {:induction false} StepGood(tags: seq<Tag>, text: string, firstId: nat, s: ScanState)
    requires AllWellFormed(tags) && s.index < |text|
    requires Good(text, firstId, s)
    ensures Good(text, firstId, Step(tags, text, s))
    decreases |text|, 1, 0
  {
    var chr := text[s.index];
    var s0 := s.(didIncrement := false);
    ScanTagsGood(tags, text, chr, firstId, s0, 0);
    var r := ScanTags(tags, text, chr, s0, 0);
    if r.didIncrement {
      assert Step(tags, text, s) == r.(didIncrement := false);
    } else {
      assert Step(tags, text, s) == r.(acc := r.acc + [chr], index := r.index + 1);
      AccumulateGood(text, firstId, r);
    }
  }

  /** The character at the index joins the pending run. */
  lemma AccumulateGood(text: string, firstId: nat, r: ScanState)
    requires r.index < |text|
    requires Good(text, firstId, r)
    ensures Good(text, firstId, r.(acc := r.acc + [text[r.index]], index := r.index + 1))
  {
    assert text[..r.index + 1] == text[..r.index] + [text[r.index]];
  }

  lemma {:induction false} ScanTagsGood(tags: seq<Tag>, text: string, chr: char, firstId: nat, s: ScanState, k: nat)
    requires AllWellFormed(tags) && s.index <= |text|
    requires Good(text, firstId, s)
    ensures Good(text, firstId, ScanTags(tags, text, chr, s, k))
    decreases |text|, 0, |tags| - k + 3
  {
    if k < |tags| {
      TryTagGood(tags, text, chr, tags[k], firstId, s);
      ScanTagsGood(tags, text, chr, firstId, TryTag(tags, text, chr, tags[k], s), k + 1);
    }
  }

  /** Trying one tag keeps the invariant, whether the tag does not open here, opens
      without a close, or opens and closes. */
  lemma {:induction false} TryTagGood(tags: seq<Tag>, text: string, chr: char, tag: Tag, firstId: nat, s: ScanState)
    requires AllWellFormed(tags) && tag in tags && s.index <= |text|
    requires Good(text, firstId, s)
    ensures Good(text, firstId, TryTag(tags, text, chr, tag, s))
    decreases |text|, 0, 2
  {
    if OpensAt(text, chr, tag, s.index) {
      var found := FindFrom(tag.closeMarkdown, s.index + |tag.openMarkdown|, text, !Has(tag.options, DisallowsNewLines));
      if found.None? {
        UnmatchedGood(tags, text, chr, tag, firstId, s);
      } else {
        MatchedStepGood(tags, text, chr, tag, firstId, s, found.value);
      }
    }
  }

  /** The tag opens but its close is not found. */
  lemma UnmatchedGood(tags: seq<Tag>, text: string, chr: char, tag: Tag, firstId: nat, s: ScanState)
    requires AllWellFormed(tags) && tag in tags && s.index <= |text|
    requires Good(text, firstId, s)
    requires OpensAt(text, chr, tag, s.index)
    requires FindFrom(tag.closeMarkdown, s.index + |tag.openMarkdown|, text, !Has(tag.options, DisallowsNewLines)).None?
    ensures Good(text, firstId, TryTag(tags, text, chr, tag, s))
  {
    FlushGood(text, firstId, s);
    UnmatchedOpen(tags, text, chr, tag, s);
    WidenGood(text, firstId, Flush(s));
  }

  /** The tag opens and its close is found at `c`. */
  lemma {:induction false} MatchedStepGood(tags: seq<Tag>, text: string, chr: char, tag: Tag, firstId: nat, s: ScanState, c: nat)
    requires AllWellFormed(tags) && tag in tags && s.index <= |text|
    requires Good(text, firstId, s)
    requires OpensAt(text, chr, tag, s.index)
    requires FindFrom(tag.closeMarkdown, s.index + |tag.openMarkdown|, text, !Has(tag.options, DisallowsNewLines)) == Some(c)
    ensures Good(text, firstId, TryTag(tags, text, chr, tag, s))
    decreases |text|, 0, 1
  {
    FlushGood(text, firstId, s);
    OpensAtFits(text, chr, tag, s.index);
    var f := Flush(s);
    assert f.index == s.index && f.acc == "";
    var content := text[s.index + |tag.openMarkdown|..c];
    var sub := ParseContent(tags, tag, content, f.nextId + 1);
    MatchedOpen(tags, text, chr, tag, s, c, content, sub);
    MatchedGood(tags, text, tag, firstId, f, c, content, sub);
  }

  /** The tag opens at the index of the flushed state `f` and its close is found at `c`:
      the new tag node holds the content in between and the parse of that content. */
  lemma {:induction false} MatchedGood(tags: seq<Tag>, text: string, tag: Tag, firstId: nat, f: ScanState, c: nat,
                                       content: string, sub: ParseResult)
    requires AllWellFormed(tags) && tag in tags && f.index <= |text|
    requires Good(text, firstId, f) && f.acc == ""
    requires f.index + |tag.openMarkdown| <= c && MatchesAt(text, tag.closeMarkdown, c)
    requires text[f.index..f.index + |tag.openMarkdown|] == tag.openMarkdown
    requires content == text[f.index + |tag.openMarkdown|..c]
    requires sub == ParseContent(tags, tag, content, f.nextId + 1)
    ensures Resume(tag, c) <= |text|
    ensures Good(text, firstId,
      ScanState(Resume(tag, c), f.nodes + [Node(Some(tag), f.index, f.nextId, content, sub.nodes)], "", sub.nextId, true))
    decreases |text|, 0, 0
  {
    ParseContentAscending(tags, tag, content, f.nextId + 1, sub);
    KeptAndResume(tag, c);
    var node := Node(Some(tag), f.index, f.nextId, content, sub.nodes);
    TagNodeAccounts(text, f.nodes, tag, node, f.index, c);
    AppendTagNodeGood(text, firstId, f, node, Resume(tag, c), sub.nextId);
  }

  // ---------------------------------------------------------------------------
  // The shapes, by a separate induction over the same steps

  lemma {:induction false} LoopShaped(tags: seq<Tag>, text: string, s: ScanState)
    requires AllScannable(tags) && s.index <= |text| && AllWellShaped(tags, s.nodes)
    ensures AllWellShaped(tags, Loop(tags, text, s).nodes)
    decreases |text| - s.index
  {
    if s.index >= |text| {
      FlushShaped(tags, s);
    } else {
      StepShaped(tags, text, s);
      LoopShaped(tags, text, Step(tags, text, s));
    }
  }

  lemma StepShaped(tags: seq<Tag>, text: string, s: ScanState)
    requires AllScannable(tags) && s.index < |text| && AllWellShaped(tags, s.nodes)
    ensures AllWellShaped(tags, Step(tags, text, s).nodes)
  {
    var chr := text[s.index];
    var s0 := s.(didIncrement := false);
    ScanTagsShaped(tags, text, chr, s0, 0);
    var r := ScanTags(tags, text, chr, s0, 0);
    assert Step(tags, text, s).nodes == r.nodes;
  }

  lemma {:induction false} ScanTagsShaped(tags: seq<Tag>, text: string, chr: char, s: ScanState, k: nat)
    requires AllScannable(tags) && s.index <= |text| && AllWellShaped(tags, s.nodes)
    ensures AllWellShaped(tags, ScanTags(tags, text, chr, s, k).nodes)
    decreases |tags| - k
  {
    if k < |tags| {
      TryTagShaped(tags, text, chr, tags[k], s);
      ScanTagsShaped(tags, text, chr, TryTag(tags, text, chr, tags[k], s), k + 1);
    }
  }

  /** A flushed run is a non-empty text leaf, and a found tag node holds the parse of its
      content. */
  lemma TryTagShaped(tags: seq<Tag>, text: string, chr: char, tag: Tag, s: ScanState)
    requires AllScannable(tags) && tag in tags && s.index <= |text| && AllWellShaped(tags, s.nodes)
    ensures AllWellShaped(tags, TryTag(tags, text, chr, tag, s).nodes)
  {
    if OpensAt(text, chr, tag, s.index) {
      FlushShaped(tags, s);
      var found := FindFrom(tag.closeMarkdown, s.index + |tag.openMarkdown|, text, !Has(tag.options, DisallowsNewLines));
      if found.None? {
        UnmatchedOpen(tags, text, chr, tag, s);
      } else {
        MatchedShaped(tags, text, chr, tag, s, found.value);
      }
    }
  }

  lemma MatchedShaped(tags: seq<Tag>, text: string, chr: char, tag: Tag, s: ScanState, c: nat)
    requires AllScannable(tags) && tag in tags && s.index <= |text| && AllWellShaped(tags, Flush(s).nodes)
    requires OpensAt(text, chr, tag, s.index)
    requires FindFrom(tag.closeMarkdown, s.index + |tag.openMarkdown|, text, !Has(tag.options, DisallowsNewLines)) == Some(c)
    ensures AllWellShaped(tags, TryTag(tags, text, chr, tag, s).nodes)
  {
    OpensAtFits(text, chr, tag, s.index);
    var f := Flush(s);
    var content := text[s.index + |tag.openMarkdown|..c];
    var sub := ParseContent(tags, tag, content, f.nextId + 1);
    MatchedOpen(tags, text, chr, tag, s, c, content, sub);
    TagNodeShaped(tags, tag, s.index, f.nextId, content, sub);
    ShapedAppend(tags, f.nodes, Node(Some(tag), s.index, f.nextId, content, sub.nodes));
  }

  lemma FlushShaped(tags: seq<Tag>, s: ScanState)
    requires AllScannable(tags) && AllWellShaped(tags, s.nodes)
    ensures AllWellShaped(tags, Flush(s).nodes)
  {
    if |s.acc| > 0 {
      ShapedAppend(tags, s.nodes, NewTextNode(s.acc, s.index, s.nextId));
    }
  }

  /** Where each parsed node's markup lies in the text: the nodes before it account for
      the text up to its start, and a tag node sits on its open delimiter. */
  lemma NodeSpans(text: string, nodes: seq<Node>, k: nat)
    requires ConcatFullTexts(nodes) == text && Positioned(nodes) && k < |nodes|
    ensures Covers(text, |ConcatFullTexts(nodes[..k])|, FullText(nodes[k]))
    ensures nodes[k].tag.Some? ==>
      nodes[k].position == |ConcatFullTexts(nodes[..k])| &&
      HasPrefix(text[nodes[k].position..], nodes[k].tag.value.openMarkdown)
  {
    ConcatFullTextsSplit(nodes, k);
    NodeSpan(text, ConcatFullTexts(nodes[..k]), nodes[k], ConcatFullTexts(nodes[k + 1..]));
    PositionedAt(nodes, k);
  }

  /** The full text of a node between two strings, located in their concatenation. */
  lemma NodeSpan(text: string, before: string, n: Node, after: string)
    requires text == before + FullText(n) + after
    ensures Covers(text, |before|, FullText(n))
    ensures n.tag.Some? ==> HasPrefix(text[|before|..], n.tag.value.openMarkdown)
  {
    SliceOfConcat(text, before, FullText(n), after);
    if n.tag.Some? {
      PrefixOfSlice(text, |before|, FullText(n), n.tag.value.openMarkdown);
    }
  }

  lemma ConcatFullTextsSplit(nodes: seq<Node>, k: nat)
    requires k < |nodes|
    ensures ConcatFullTexts(nodes) == ConcatFullTexts(nodes[..k]) + FullText(nodes[k]) + ConcatFullTexts(nodes[k + 1..])
  {
    ConcatFullTextsSnoc(nodes[..k], nodes[k]);
    TakeSnoc(nodes, k);
    TakeDrop(nodes, k + 1);
    ConcatFullTextsAppend(nodes[..k + 1], nodes[k + 1..]);
  }

  lemma ConcatPrefixStep(nodes: seq<Node>, k: nat)
    requires k < |nodes|
    ensures ConcatFullTexts(nodes[..k + 1]) == ConcatFullTexts(nodes[..k]) + FullText(nodes[k])
  {
    TakeSnoc(nodes, k);
    ConcatFullTextsSnoc(nodes[..k], nodes[k]);
  }

  lemma SliceOfConcat(text: string, a: string, b: string, c: string)
    requires text == a + b + c
    ensures |a| + |b| <= |text| && text[|a|..|a| + |b|] == b
  {
  }

  lemma PrefixOfSlice(text: string, i: nat, piece: string, prefix: string)
    requires i + |piece| <= |text| && text[i..i + |piece|] == piece
    requires |prefix| <= |piece| && piece[..|prefix|] == prefix
    ensures HasPrefix(text[i..], prefix)
  {
    assert text[i..][..|prefix|] == text[i..i + |piece|][..|prefix|];
  }

  /** A text node's position is where its run ends: where the following tag node starts,
      or the length of the text for the last node. */
  lemma TextNodeEnds(text: string, nodes: seq<Node>, k: nat)
    requires ConcatFullTexts(nodes) == text && Positioned(nodes) && k < |nodes|
    requires nodes[k].tag.None?
    ensures nodes[k].position == |ConcatFullTexts(nodes[..k])| + |nodes[k].textContent|
    ensures k + 1 < |nodes| && nodes[k + 1].tag.Some? ==> nodes[k].position == nodes[k + 1].position
    ensures k + 1 == |nodes| ==> nodes[k].position == |text|
  {
    ConcatPrefixStep(nodes, k);
    PositionedAt(nodes, k);
    if k + 1 < |nodes| {
      PositionedAt(nodes, k + 1);
    } else {
      TakeAll(nodes);
    }
  }

  /** When no tag of the catalog opens at the index, the step adds the character to the
      pending text run and moves on by one: an open delimiter without a close is text. */
  lemma NothingOpensAccumulates(tags: seq<Tag>, text: string, s: ScanState)
    requires AllScannable(tags) && s.index < |text|
    requires forall k :: 0 <= k < |tags| ==> !OpensAt(text, text[s.index], tags[k], s.index)
    ensures Step(tags, text, s) == s.(acc := s.acc + [text[s.index]], index := s.index + 1, didIncrement := false)
  {
    ScanTagsUnchanged(tags, text, text[s.index], s.(didIncrement := false), 0);
  }

  lemma {:induction false} ScanTagsUnchanged(tags: seq<Tag>, text: string, chr: char, s: ScanState, k: nat)
    requires AllScannable(tags) && s.index <= |text|
    requires forall j :: k <= j < |tags| ==> !OpensAt(text, chr, tags[j], s.index)
    ensures ScanTags(tags, text, chr, s, k) == s
    decreases |tags| - k
  {
    if k < |tags| {
      ScanTagsUnchanged(tags, text, chr, s, k + 1);
    }
  }

  /** The number of tags from `k` on whose open delimiter starts at `index`. */
  function OpenCount(tags: seq<Tag>, text: string, chr: char, index: nat, k: nat): (r: nat)
    requires AllScannable(tags) && index <= |text|
    ensures r == 0 <==> forall j :: k <= j < |tags| ==> !OpensAt(text, chr, tags[j], index)
    decreases |tags| - k
  {
    if k >= |tags| then 0
    else (if OpensAt(text, chr, tags[k], index) then 1 else 0) + OpenCount(tags, text, chr, index, k + 1)
  }

  /** The close delimiter of `tag`, searched from after its open at `index`, is missing. */
  predicate CloseMissing(text: string, tag: Tag, index: nat)
    requires Scannable(tag)
  {
    FindFrom(tag.closeMarkdown, index + |tag.openMarkdown|, text, !Has(tag.options, DisallowsNewLines)).None?
  }

  /** An open delimiter without a close is text. When every tag that opens at the index
      finds no close, the step produces no tag node: the first such tag flushes the
      pending run, each of them uses up one identifier for its discarded node, and the
      character then joins the new text run as the index moves on by one. */
  lemma UnmatchedOpensAccumulate(tags: seq<Tag>, text: string, s: ScanState)
    requires AllScannable(tags) && s.index < |text|
    requires forall k :: 0 <= k < |tags| && OpensAt(text, text[s.index], tags[k], s.index) ==>
      CloseMissing(text, tags[k], s.index)
    ensures var r := Step(tags, text, s);
      var n := OpenCount(tags, text, text[s.index], s.index, 0);
      r.index == s.index + 1 && !r.didIncrement &&
      (n == 0 ==> r.nodes == s.nodes && r.acc == s.acc + [text[s.index]] && r.nextId == s.nextId) &&
      (n > 0 ==> r.nodes == Flush(s).nodes && r.acc == [text[s.index]] && r.nextId == Flush(s).nextId + n)
  {
    ScanTagsUnmatched(tags, text, text[s.index], s.(didIncrement := false), 0);
  }

  /** The state after `n` unmatched opens: the pending run flushed once and `n`
      identifiers used up, or the state itself when nothing opened. */
  function AfterUnmatched(s: ScanState, n: nat): (r: ScanState)
    ensures r.index == s.index && r.didIncrement == s.didIncrement
    ensures n == 0 ==> r == s
    ensures n > 0 ==> r.nodes == Flush(s).nodes && r.acc == "" && r.nextId == Flush(s).nextId + n
  {
    if n == 0 then s else Flush(s).(nextId := Flush(s).nextId + n)
  }

  lemma {:induction false} ScanTagsUnmatched(tags: seq<Tag>, text: string, chr: char, s: ScanState, k: nat)
    requires AllScannable(tags) && s.index <= |text|
    requires forall j :: k <= j < |tags| && OpensAt(text, chr, tags[j], s.index) ==> CloseMissing(text, tags[j], s.index)
    ensures ScanTags(tags, text, chr, s, k) == AfterUnmatched(s, OpenCount(tags, text, chr, s.index, k))
    decreases |tags| - k
  {
    if k < |tags| {
      var t := TryTag(tags, text, chr, tags[k], s);
      if OpensAt(text, chr, tags[k], s.index) {
        UnmatchedOpen(tags, text, chr, tags[k], s);
        AfterUnmatchedOnce(s, t, OpenCount(tags, text, chr, s.index, k + 1));
      }
      ScanTagsUnmatched(tags, text, chr, t, k + 1);
    }
  }

  /** One more unmatched open after the first flushes nothing further. */
  lemma AfterUnmatchedOnce(s: ScanState, t: ScanState, m: nat)
    requires t == Flush(s).(nextId := Flush(s).nextId + 1)
    ensures AfterUnmatched(t, m) == AfterUnmatched(s, m + 1)
  {
  }

  // ---------------------------------------------------------------------------
  // The steps of the proof

  /** Flushing the pending run appends a text node that ends where the index is. */
  lemma FlushGood(text: string, firstId: nat, s: ScanState)
    requires s.index <= |text|
    requires Good(text, firstId, s)
    ensures Good(text, firstId, Flush(s))
  {
    if |s.acc| > 0 {
      var t := NewTextNode(s.acc, s.index, s.nextId);
      ConcatFullTextsAppend(s.nodes, [t]);
      PositionedAppend(s.nodes, t);
      assert ForestIds(t.children) == [];
      TagIdsAppend(s.nodes, t, firstId, s.nextId + 1);
    }
  }

  /** Using up one more identifier keeps the invariant. */
  lemma WidenGood(text: string, firstId: nat, s: ScanState)
    requires s.index <= |text|
    requires Good(text, firstId, s)
    ensures Good(text, firstId, s.(nextId := s.nextId + 1))
  {
  }

  /** Appending a found tag node after a flush, when its full text continues the
      accounted text up to `resume`: its position is where that markup starts, and its
      subtree's identifiers come after all earlier ones. */
  lemma AppendTagNodeGood(text: string, firstId: nat, f: ScanState, node: Node, resume: nat, next: nat)
    requires f.index <= |text| && resume <= |text| && Good(text, firstId, f) && f.acc == ""
    requires node.tag.Some? && node.position == f.index && node.identifier == f.nextId
    requires ConcatFullTexts(f.nodes + [node]) == text[..resume]
    requires Ascending(ForestIds(node.children), f.nextId + 1, next)
    ensures Good(text, firstId, ScanState(resume, f.nodes + [node], "", next, true))
  {
    assert ConcatFullTexts(f.nodes) == text[..f.index];
    PositionedAppend(f.nodes, node);
    TagIdsAppend(f.nodes, node, firstId, next);
  }

  /** The found tag node's full text continues the accounted text up to where the scan
      resumes. */
  lemma TagNodeAccounts(text: string, nodes: seq<Node>, tag: Tag, node: Node, index: nat, c: nat)
    requires index <= |text| && ConcatFullTexts(nodes) == text[..index]
    requires node.tag == Some(tag) && KeepsClose(tag, c)
    requires index + |tag.openMarkdown| <= c
    requires MatchesAt(text, tag.closeMarkdown, c)
    requires text[index..index + |tag.openMarkdown|] == tag.openMarkdown
    requires node.textContent == text[index + |tag.openMarkdown|..c]
    ensures Resume(tag, c) <= |text|
    ensures ConcatFullTexts(nodes + [node]) == text[..Resume(tag, c)]
  {
    TagNodeText(text, tag, node, index, c);
    ConcatFullTextsSnoc(nodes, node);
    SliceJoin(text, index, Resume(tag, c));
  }

  /** A found tag node's full text is the input from its open delimiter to where the
      scan resumes. */
  lemma TagNodeText(text: string, tag: Tag, node: Node, index: nat, c: nat)
    requires node.tag == Some(tag) && KeepsClose(tag, c)
    requires index + |tag.openMarkdown| <= c
    requires MatchesAt(text, tag.closeMarkdown, c)
    requires text[index..index + |tag.openMarkdown|] == tag.openMarkdown
    requires node.textContent == text[index + |tag.openMarkdown|..c]
    ensures Resume(tag, c) <= |text|
    ensures FullText(node) == text[index..Resume(tag, c)]
  {
    MarkupSlice(text, tag.openMarkdown, node.textContent, tag.closeMarkdown, Trim(tag.closeMarkdown, Newlines),
                index, c, Resume(tag, c));
  }

  /** Open delimiter, content and what is kept of the close delimiter, laid end to end. */
  lemma MarkupSlice(text: string, open: string, content: string, close: string, kept: string,
                    index: nat, c: nat, resume: nat)
    requires index + |open| <= c && MatchesAt(text, close, c)
    requires text[index..index + |open|] == open && content == text[index + |open|..c]
    requires (kept == "" && resume == c) || (kept == close && resume == c + |close|)
    ensures resume <= |text|
    ensures open + content + kept == text[index..resume]
  {
    SliceSplit(text, index, index + |open|, c);
    SliceSplit(text, index, c, resume);
  }

  /** What a well-formed close delimiter leaves in the full text, with where the scan
      resumes after it. */
  predicate KeepsClose(tag: Tag, c: nat) {
    (Trim(tag.closeMarkdown, Newlines) == "" && Resume(tag, c) == c) ||
    (Trim(tag.closeMarkdown, Newlines) == tag.closeMarkdown && Resume(tag, c) == c + |tag.closeMarkdown|)
  }

  lemma KeptAndResume(tag: Tag, c: nat)
    requires WellFormedTag(tag)
    ensures KeepsClose(tag, c)
  {
    CloseTrimmed(tag);
  }

  lemma ConcatFullTextsSnoc(nodes: seq<Node>, node: Node)
    ensures ConcatFullTexts(nodes + [node]) == ConcatFullTexts(nodes) + FullText(node)
  {
    SnocTake(nodes, node);
  }

  lemma TagNodeShaped(tags: seq<Tag>, tag: Tag, position: int, id: nat, content: string, sub: ParseResult)
    requires AllScannable(tags) && tag in tags && sub == ParseContent(tags, tag, content, id + 1)
    ensures WellShaped(tags, Node(Some(tag), position, id, content, sub.nodes))
  {
  }

  lemma ShapedAppend(tags: seq<Tag>, nodes: seq<Node>, x: Node)
    requires AllScannable(tags) && AllWellShaped(tags, nodes) && WellShaped(tags, x)
    ensures AllWellShaped(tags, nodes + [x])
  {
    SnocTake(nodes, x);
  }

  lemma TagIdsAppend(nodes: seq<Node>, x: Node, firstId: nat, next: nat)
    requires Ascending(ForestIds(nodes), firstId, x.identifier)
    requires Ascending(ForestIds(x.children), x.identifier + 1, next)
    ensures Ascending(ForestIds(nodes + [x]), firstId, next)
  {
    SnocTake(nodes, x);
    assert ForestIds(nodes + [x]) == ForestIds(nodes) + ([x.identifier] + ForestIds(x.children));
    AscendingAppend([x.identifier], ForestIds(x.children), x.identifier, x.identifier + 1, next);
    AscendingAppend(ForestIds(nodes), [x.identifier] + ForestIds(x.children), firstId, x.identifier, next);
  }

  /** A prefix of the text splits at any index up to its end. */
  lemma SliceJoin(text: string, i: nat, j: nat)
    requires i <= j <= |text|
    ensures text[..j] == text[..i] + text[i..j]
  {
  }

  lemma SliceSplit(text: string, i: nat, j: nat, k: nat)
    requires i <= j <= k <= |text|
    ensures text[i..k] == text[i..j] + text[j..k]
  {
  }

  /** A well-formed close delimiter trims to nothing when it is a lone newline and to
      itself otherwise. */
  lemma CloseTrimmed(tag: Tag)
    requires WellFormedTag(tag)
    ensures Trim(tag.closeMarkdown, Newlines) == (if tag.closeMarkdown == "\n" then "" else tag.closeMarkdown)
  {
    var close := tag.closeMarkdown;
    if close == "\n" {
      assert InClass(close[0], Newlines);
      TrimAllRemoved(close, Newlines);
    } else {
      NoNewlinesAt(close);
      TrimUnchanged(close, Newlines);
    }
  }

  lemma {:induction false} NoNewlinesAt(s: string)
    requires NoNewlines(s)
    ensures forall k :: 0 <= k < |s| ==> !InClass(s[k], Newlines)
  {
    if |s| > 0 {
      NoNewlinesAt(s[1..]);
      assert forall k :: 1 <= k < |s| ==> s[k] == s[1..][k - 1];
    }
  }

  /** An open delimiter that matches fits in the text: the compared slice was not cut
      short at the end. */
  lemma OpensAtFits(text: string, chr: char, tag: Tag, index: nat)
    requires index <= |text| && |tag.openMarkdown| > 0
    requires OpensAt(text, chr, tag, index)
    ensures index + |tag.openMarkdown| <= |text|
    ensures text[index..index + |tag.openMarkdown|] == tag.openMarkdown
  {
  }

  /** The position of the `k`th node of a positioned list. */
  lemma {:induction false} PositionedAt(nodes: seq<Node>, k: nat)
    requires Positioned(nodes) && k < |nodes|
    ensures nodes[k].position == (if nodes[k].tag.Some? then |ConcatFullTexts(nodes[..k])| else |ConcatFullTexts(nodes[..k + 1])|)
    decreases |nodes|
  {
    var last := |nodes| - 1;
    if k < last {
      PositionedAt(nodes[..last], k);
      TakeTake(nodes, k, last);
      TakeTake(nodes, k + 1, last);
    } else {
      TakeAll(nodes);
    }
  }

  /** The shape of the `k`th node of a well-shaped list. */
  lemma {:induction false} WellShapedAt(tags: seq<Tag>, nodes: seq<Node>, k: nat)
    requires AllScannable(tags) && AllWellShaped(tags, nodes) && k < |nodes|
    ensures WellShaped(tags, nodes[k])
    decreases |nodes|
  {
    if k < |nodes| - 1 {
      WellShapedAt(tags, nodes[..|nodes| - 1], k);
    }
  }

  lemma PositionedAppend(nodes: seq<Node>, x: Node)
    requires Positioned(nodes)
    requires x.position == (if x.tag.Some? then |ConcatFullTexts(nodes)| else |ConcatFullTexts(nodes + [x])|)
    ensures Positioned(nodes + [x])
  {
    SnocTake(nodes, x);
  }

  lemma AscendingAppend(a: seq<nat>, b: seq<nat>, lo: nat, mid: nat, hi: nat)
    requires Ascending(a, lo, mid) && Ascending(b, mid, hi)
    ensures Ascending(a + b, lo, hi)
  {
    var ab := a + b;
    forall i, j | 0 <= i < j < |ab|
      ensures ab[i] < ab[j]
    {
      if j < |a| {
        assert ab[i] == a[i] && ab[j] == a[j];
      } else if i >= |a| {
        assert ab[i] == b[i - |a|] && ab[j] == b[j - |a|];
      } else {
        assert ab[i] == a[i] && ab[j] == b[j - |a|];
      }
    }
  }
}
