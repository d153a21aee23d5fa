/**
 * Element identity and history matching (`HistoryTreeProcessor`).
 *
 * An element is fingerprinted by a pair of digests: one of its tag-name branch
 * path joined with `/`, one of its attributes rendered as `key=value` with no
 * separators, in insertion order. A snapshot (`DOMHistoryElement`) taken when
 * an action targets an element is found again in a later render by a
 * pre-order search over the interactable elements.
 *
 * SHA-256 (with UTF-8 encoding and hex rendering) is the parameter `H` of every
 * hashing function: nothing below depends on which function it is, and no
 * collision property of it is assumed except where a lemma says so.
 */
module HistoryTreeProcessor {
  import opened Base
  import opened DomViews

  /** The SHA-256 hex digest of a string's UTF-8 encoding, left abstract. */
  type Hasher = string -> string

  datatype HashedDomElement = HashedDomElement(branchPathHash: string, attributesHash: string)

  /** The tree-independent record of an element at the moment it was acted on. */
  datatype DOMHistoryElement = DOMHistoryElement(
    tag: string,
    xpath: string,
    highlight: Option<nat>,
    branchPath: seq<string>,
    attrs: seq<(string, string)>,
    shadowRoot: bool)

  /*
   * Branch paths.
   */

  /**
   * The branch path of an element with tag `tag` below `ancestors`. Despite the
   * source's name ("parent branch path") the walk pushes the current element
   * and stops at the node without a parent, so the element's own tag is the
   * last entry and the root's tag is never included: the path is the chain
   * root..element with its first entry dropped.
   */
  function BranchPath(ancestors: seq<string>, tag: string): (r: seq<string>)
  {
    (ancestors + [tag])[1..]
  }

  /**
   * `_get_parent_branch_path`: walk the parent chain upward, collecting every
   * node that has a parent, then reverse. `ancestors + [tag]` is the chain;
   * entry `k` of it has entry `k - 1` as its parent.
   */
  method GetParentBranchPath(ancestors: seq<string>, tag: string) returns (path: seq<string>)
    ensures path == BranchPath(ancestors, tag)
    ensures |path| == |ancestors|
    ensures |ancestors| == 0 ==> path == []
    ensures |ancestors| > 0 ==> path[|path| - 1] == tag
    ensures forall k :: 0 <= k < |path| - 1 ==> path[k] == ancestors[k + 1]
  {
    var chain := ancestors + [tag];
    var parents: seq<string> := [];
    var current := |ancestors|;
    while current > 0
      invariant 0 <= current <= |ancestors|
      invariant |parents| == |ancestors| - current
      invariant forall k :: 0 <= k < |parents| ==> parents[k] == chain[|ancestors| - k]
    {
      parents := parents + [chain[current]];
      current := current - 1;
    }
    path := Reverse(parents);
    assert path == chain[1..];
  }

  /*
   * Hashing.
   */

  /** Python's string join: the parts in order, with `sep` between neighbours. */
  function Join(sep: string, parts: seq<string>): (r: string)
    ensures |parts| == 0 ==> r == ""
    ensures |parts| > 0 ==> parts[0] <= r
  {
    if |parts| == 0 then ""
    else if |parts| == 1 then parts[0]
    else parts[0] + sep + Join(sep, parts[1..])
  }

  /** Python's string split on a one-character separator: never empty, one more piece than separators. */
  function Split(c: char, s: string): (r: seq<string>)
    ensures |r| > 0
    decreases |s|
  {
    if |s| == 0 then [""]
    else if s[0] == c then [""] + Split(c, s[1..])
    else
      var rest := Split(c, s[1..]);
      [[s[0]] + rest[0]] + rest[1..]
  }

  /** Splitting a string that starts with separator-free text `p` glues `p` onto the first piece. */
  lemma {:induction false} SplitAfterPlainText(c: char, p: string, t: string)
    requires c !in p
    ensures Split(c, p + t) == [p + Split(c, t)[0]] + Split(c, t)[1..]
    decreases |p|
  {
    if |p| == 0 {
      assert p + t == t;
      assert p + Split(c, t)[0] == Split(c, t)[0];
    } else {
      assert (p + t)[0] == p[0];
      assert (p + t)[1..] == p[1..] + t;
      SplitAfterPlainText(c, p[1..], t);
      assert [p[0]] + (p[1..] + Split(c, t)[0]) == p + Split(c, t)[0];
    }
  }

  /** Joining separator-free parts with `c` and splitting on `c` gives the parts back. */
  lemma {:induction false} SplitJoin(c: char, parts: seq<string>)
    requires |parts| > 0
    requires forall k :: 0 <= k < |parts| ==> c !in parts[k]
    ensures Split(c, Join([c], parts)) == parts
  {
    if |parts| == 1 {
      SplitAfterPlainText(c, parts[0], "");
      assert parts[0] + "" == parts[0];
    } else {
      var rest := Join([c], parts[1..]);
      SplitJoin(c, parts[1..]);
      assert ([c] + rest)[0] == c && ([c] + rest)[1..] == rest;
      assert Split(c, [c] + rest) == [""] + parts[1..];
      SplitAfterPlainText(c, parts[0], [c] + rest);
      assert parts[0] + [c] + rest == parts[0] + ([c] + rest);
      assert parts[0] + "" == parts[0];
    }
  }

  /** A tag name as it appears in a branch path: non-empty and free of `/`. */
  predicate TagName(t: string)
  {
    |t| > 0 && '/' !in t
  }

  /** Distinct branch paths of tag names render to distinct `/`-joined strings. */
  lemma JoinPathInjective(p1: seq<string>, p2: seq<string>)
    requires forall k :: 0 <= k < |p1| ==> TagName(p1[k])
    requires forall k :: 0 <= k < |p2| ==> TagName(p2[k])
    ensures Join("/", p1) == Join("/", p2) <==> p1 == p2
  {
    assert "/" == ['/'];
    if Join("/", p1) == Join("/", p2) {
      if |p1| > 0 && |p2| > 0 {
        SplitJoin('/', p1);
        SplitJoin('/', p2);
      }
    }
  }

  /** One `key=value` rendering. */
  function Render(kv: (string, string)): string
  {
    kv.0 + "=" + kv.1
  }

  /**
   * The attribute string: every `key=value` rendering concatenated in
   * insertion order, with no separator between attributes.
   */
  function AttributesString(attrs: seq<(string, string)>): (r: string)
    ensures r == "" <==> |attrs| == 0
    ensures |attrs| > 0 ==> Render(attrs[0]) <= r
  {
    if |attrs| == 0 then ""
    else Render(attrs[0]) + AttributesString(attrs[1..])
  }

  /** `_parent_branch_path_hash`: the digest of the `/`-joined branch path. */
  function ParentBranchPathHash(H: Hasher, path: seq<string>): string
  {
    H(Join("/", path))
  }

  /** `_attributes_hash`: the digest of the attribute string. */
  function AttributesHash(H: Hasher, attrs: seq<(string, string)>): string
  {
    H(AttributesString(attrs))
  }

  /** `_hash_dom_history_element`: uses the recorded path, no tree walk. */
  function HashDomHistoryElement(H: Hasher, h: DOMHistoryElement): HashedDomElement
  {
    HashedDomElement(ParentBranchPathHash(H, h.branchPath), AttributesHash(H, h.attrs))
  }

  /**
   * `_hash_dom_element`: the branch path comes from the element's place in the
   * tree. It is the fingerprint of the element's own snapshot.
   */
  function HashDomElement(H: Hasher, at: Located): (r: HashedDomElement)
    requires at.node.Element?
    ensures r == HashDomHistoryElement(H, ConvertDomElementToHistoryElement(at))
  {
    HashedDomElement(ParentBranchPathHash(H, BranchPath(at.ancestors, at.node.tag)),
                     AttributesHash(H, at.node.attrs))
  }

  /** With a collision-free `H`, two branch paths of tag names hash alike exactly when they are equal. */
  lemma ParentBranchPathHashSeparatesPaths(H: Hasher, p1: seq<string>, p2: seq<string>)
    requires forall x, y :: H(x) == H(y) ==> x == y
    requires forall k :: 0 <= k < |p1| ==> TagName(p1[k])
    requires forall k :: 0 <= k < |p2| ==> TagName(p2[k])
    ensures ParentBranchPathHash(H, p1) == ParentBranchPathHash(H, p2) <==> p1 == p2
  {
    JoinPathInjective(p1, p2);
  }

  /** With a collision-free `H`, two attribute lists hash alike exactly when they render to the same string. */
  lemma AttributesHashSeparatesStrings(H: Hasher, a: seq<(string, string)>, b: seq<(string, string)>)
    requires forall x, y :: H(x) == H(y) ==> x == y
    ensures AttributesHash(H, a) == AttributesHash(H, b) <==> AttributesString(a) == AttributesString(b)
  {
  }

  /**
   * With a collision-free `H`, two snapshots have the same fingerprint exactly
   * when their branch paths are equal and their attributes render alike; no
   * other field takes part.
   */
  lemma HashDomHistoryElementSeparates(H: Hasher, h1: DOMHistoryElement, h2: DOMHistoryElement)
    requires forall x, y :: H(x) == H(y) ==> x == y
    requires forall k :: 0 <= k < |h1.branchPath| ==> TagName(h1.branchPath[k])
    requires forall k :: 0 <= k < |h2.branchPath| ==> TagName(h2.branchPath[k])
    ensures HashDomHistoryElement(H, h1) == HashDomHistoryElement(H, h2)
            <==> h1.branchPath == h2.branchPath && AttributesString(h1.attrs) == AttributesString(h2.attrs)
  {
    ParentBranchPathHashSeparatesPaths(H, h1.branchPath, h2.branchPath);
  }

  /**
   * The attribute string is not injective: keys may contain `=`, so two
   * different attribute lists can render alike and then share a digest
   * whatever `H` is.
   */
  lemma DifferentAttributesCanRenderAlike()
    ensures [("a", ""), ("a=a", "")] != [("a=a", ""), ("a", "")]
    ensures AttributesString([("a", ""), ("a=a", "")]) == AttributesString([("a=a", ""), ("a", "")])
  {
    assert [("a", ""), ("a=a", "")][0] != [("a=a", ""), ("a", "")][0];
    AttributesStringAppend([("a", "")], [("a=a", "")]);
    AttributesStringAppend([("a=a", "")], [("a", "")]);
    assert [("a", "")] + [("a=a", "")] == [("a", ""), ("a=a", "")];
    assert [("a=a", "")] + [("a", "")] == [("a=a", ""), ("a", "")];
    assert AttributesString([("a", "")]) == "a=";
    assert AttributesString([("a=a", "")]) == "a=a=";
  }

  /*
   * Snapshot and comparison.
   */

  /** `convert_dom_element_to_history_element`. */
  function ConvertDomElementToHistoryElement(at: Located): (h: DOMHistoryElement)
    requires at.node.Element?
    ensures h.tag == at.node.tag && h.xpath == at.node.xpath
    ensures h.highlight == at.node.highlight && h.attrs == at.node.attrs
    ensures h.shadowRoot == at.node.shadowRoot
    ensures |h.branchPath| == |at.ancestors|
    ensures |at.ancestors| > 0 ==> h.branchPath[|h.branchPath| - 1] == at.node.tag
  {
    DOMHistoryElement(at.node.tag, at.node.xpath, at.node.highlight,
                      BranchPath(at.ancestors, at.node.tag), at.node.attrs, at.node.shadowRoot)
  }

  /** `compare_history_element_and_dom_element`. */
  function CompareHistoryElementAndDomElement(H: Hasher, h: DOMHistoryElement, at: Located): (r: bool)
    requires at.node.Element?
    ensures r <==>
      && ParentBranchPathHash(H, h.branchPath) == ParentBranchPathHash(H, BranchPath(at.ancestors, at.node.tag))
      && AttributesHash(H, h.attrs) == AttributesHash(H, at.node.attrs)
  {
    HashDomHistoryElement(H, h) == HashDomElement(H, at)
  }

  /** A snapshot always matches the element it was taken from. */
  lemma SelfMatch(H: Hasher, at: Located)
    requires at.node.Element?
    ensures CompareHistoryElementAndDomElement(H, ConvertDomElementToHistoryElement(at), at)
    ensures HashDomHistoryElement(H, ConvertDomElementToHistoryElement(at)) == HashDomElement(H, at)
  {
  }

  /**
   * Only the branch path and the attributes take part in the comparison:
   * xpath, highlight index, shadow-root flag and children of either side
   * do not affect it.
   */
  lemma CompareIgnoresOtherFields(H: Hasher, h: DOMHistoryElement, h': DOMHistoryElement,
                                  at: Located, at': Located)
    requires at.node.Element? && at'.node.Element?
    requires h.branchPath == h'.branchPath && h.attrs == h'.attrs
    requires BranchPath(at.ancestors, at.node.tag) == BranchPath(at'.ancestors, at'.node.tag)
    requires at.node.attrs == at'.node.attrs
    ensures CompareHistoryElementAndDomElement(H, h, at) == CompareHistoryElementAndDomElement(H, h', at')
  {
  }

  /*
   * Search.
   */

  /** `at` is an interactable element whose fingerprint is `target`. */
  predicate Matches(H: Hasher, target: HashedDomElement, at: Located)
  {
    at.node.Element? && at.node.highlight.Some? && HashDomElement(H, at) == target
  }

  /** Reference definition of the search: the first match in a sequence of candidates. */
  function FirstMatch(H: Hasher, target: HashedDomElement, candidates: seq<Located>): (r: Option<Located>)
    ensures r.None? <==> forall k :: 0 <= k < |candidates| ==> !Matches(H, target, candidates[k])
    ensures r.Some? ==> r.value in candidates && Matches(H, target, r.value)
  {
    if |candidates| == 0 then None
    else if Matches(H, target, candidates[0]) then Some(candidates[0])
    else FirstMatch(H, target, candidates[1..])
  }

  /** The first match returned is preceded only by candidates that do not match. */
  lemma {:induction false} FirstMatchIsFirst(H: Hasher, target: HashedDomElement, candidates: seq<Located>)
    requires FirstMatch(H, target, candidates).Some?
    ensures exists k :: 0 <= k < |candidates| && candidates[k] == FirstMatch(H, target, candidates).value
                        && forall j :: 0 <= j < k ==> !Matches(H, target, candidates[j])
  {
    if Matches(H, target, candidates[0]) {
      assert candidates[0] == FirstMatch(H, target, candidates).value;
    } else {
      FirstMatchIsFirst(H, target, candidates[1..]);
      var k :| 0 <= k < |candidates[1..]| && candidates[1..][k] == FirstMatch(H, target, candidates[1..]).value
               && forall j :: 0 <= j < k ==> !Matches(H, target, candidates[1..][j]);
      assert candidates[k + 1] == FirstMatch(H, target, candidates).value;
      assert forall j :: 0 <= j < k + 1 ==> !Matches(H, target, candidates[j]) by {
        forall j | 0 <= j < k + 1
          ensures !Matches(H, target, candidates[j])
        {
          if j > 0 {
            assert candidates[j] == candidates[1..][j - 1];
          }
        }
      }
    }
  }

  /** The first match in a concatenation is the first match in the front part, if any. */
  lemma {:induction false} FirstMatchAppend(H: Hasher, target: HashedDomElement, a: seq<Located>, b: seq<Located>)
    ensures FirstMatch(H, target, a + b) ==
            if FirstMatch(H, target, a).Some? then FirstMatch(H, target, a) else FirstMatch(H, target, b)
  {
    if |a| == 0 {
      assert a + b == b;
    } else {
      assert (a + b)[0] == a[0];
      assert (a + b)[1..] == a[1..] + b;
      FirstMatchAppend(H, target, a[1..], b);
    }
  }

  /**
   * `process_node`: test the node itself if it is interactable, then search
   * its element children in order, returning the first hit.
   */
  function ProcessNode(H: Hasher, target: HashedDomElement, at: Located): (r: Option<Located>)
    requires at.node.Element?
    ensures r.Some? ==> Matches(H, target, r.value)
    decreases at.node
  {
    if at.node.highlight.Some? && HashDomElement(H, at) == target then Some(at)
    else ProcessChildren(H, target, at.ancestors + [at.node.tag], at.node.children)
  }

  /** The loop over `node.children`, skipping anything that is not an element. */
  function ProcessChildren(H: Hasher, target: HashedDomElement, ancestors: seq<string>,
                           children: seq<Node>): (r: Option<Located>)
    ensures r.Some? ==> Matches(H, target, r.value)
    decreases children
  {
    if |children| == 0 then None
    else if children[0].Element? then
      var found := ProcessNode(H, target, Located(ancestors, children[0]));
      if found.Some? then found else ProcessChildren(H, target, ancestors, children[1..])
    else ProcessChildren(H, target, ancestors, children[1..])
  }

  /** The recursive search is the first match of the pre-order element sequence. */
  lemma {:induction false} ProcessNodeIsFirstMatch(H: Hasher, target: HashedDomElement, at: Located)
    requires at.node.Element?
    ensures ProcessNode(H, target, at) == FirstMatch(H, target, PreOrder(at.ancestors, at.node))
    decreases at.node
  {
    var anc := at.ancestors + [at.node.tag];
    var rest := PreOrderChildren(anc, at.node.children);
    assert PreOrder(at.ancestors, at.node) == [at] + rest;
    FirstMatchAppend(H, target, [at], rest);
    ProcessChildrenIsFirstMatch(H, target, anc, at.node.children);
  }

  lemma {:induction false} ProcessChildrenIsFirstMatch(H: Hasher, target: HashedDomElement,
                                                       ancestors: seq<string>, children: seq<Node>)
    ensures ProcessChildren(H, target, ancestors, children)
            == FirstMatch(H, target, PreOrderChildren(ancestors, children))
    decreases children
  {
    if |children| > 0 {
      var head := PreOrder(ancestors, children[0]);
      var tail := PreOrderChildren(ancestors, children[1..]);
      FirstMatchAppend(H, target, head, tail);
      ProcessChildrenIsFirstMatch(H, target, ancestors, children[1..]);
      if children[0].Element? {
        ProcessNodeIsFirstMatch(H, target, Located(ancestors, children[0]));
      }
    }
  }

  /**
   * `find_history_element_in_tree`: the first interactable element of `tree`,
   * in document order, whose fingerprint equals the snapshot's; `None` when
   * there is none. `tree` carries its ancestors, so a subtree is searched with
   * the branch paths it has in the whole page.
   */
  function FindHistoryElementInTree(H: Hasher, h: DOMHistoryElement, tree: Located): (r: Option<Located>)
    requires tree.node.Element?
    ensures r == FirstMatch(H, HashDomHistoryElement(H, h), PreOrder(tree.ancestors, tree.node))
    ensures r.Some? ==> && r.value in PreOrder(tree.ancestors, tree.node)
                        && r.value.node.Element? && r.value.node.highlight.Some?
                        && HashDomElement(H, r.value) == HashDomHistoryElement(H, h)
    ensures r.None? <==> forall k :: 0 <= k < |PreOrder(tree.ancestors, tree.node)| ==>
                          !Matches(H, HashDomHistoryElement(H, h), PreOrder(tree.ancestors, tree.node)[k])
  {
    var target := HashDomHistoryElement(H, h);
    ProcessNodeIsFirstMatch(H, target, tree);
    ProcessNode(H, target, tree)
  }

  /** When the search succeeds, every element before the result in document order fails to match. */
  lemma FindReturnsFirstInDocumentOrder(H: Hasher, h: DOMHistoryElement, tree: Located)
    requires tree.node.Element?
    requires FindHistoryElementInTree(H, h, tree).Some?
    ensures var order := PreOrder(tree.ancestors, tree.node);
            exists k :: 0 <= k < |order| && order[k] == FindHistoryElementInTree(H, h, tree).value
                        && forall j :: 0 <= j < k ==> !Matches(H, HashDomHistoryElement(H, h), order[j])
  {
    var target := HashDomHistoryElement(H, h);
    ProcessNodeIsFirstMatch(H, target, tree);
    FirstMatchIsFirst(H, target, PreOrder(tree.ancestors, tree.node));
  }

  /** Absence: when no interactable element of `tree` shares both digests with the snapshot, the search reports none. */
  lemma NotFoundWhenNothingMatches(H: Hasher, h: DOMHistoryElement, tree: Located)
    requires tree.node.Element?
    requires forall k :: 0 <= k < |PreOrder(tree.ancestors, tree.node)| ==>
               !Matches(H, HashDomHistoryElement(H, h), PreOrder(tree.ancestors, tree.node)[k])
    ensures FindHistoryElementInTree(H, h, tree) == None
  {
  }

  /**
   * Snapshotting an interactable element of `tree` and searching the same
   * tree always finds an element with the same fingerprint (not necessarily
   * the same element: see `FoundElementNeedNotBeTheSnapshotted`).
   */
  lemma SnapshotIsFoundInSameTree(H: Hasher, tree: Located, at: Located)
    requires tree.node.Element?
    requires at in PreOrder(tree.ancestors, tree.node) && at.node.highlight.Some?
    ensures var r := FindHistoryElementInTree(H, ConvertDomElementToHistoryElement(at), tree);
            r.Some? && HashDomElement(H, r.value) == HashDomElement(H, at)
  {
    var order := PreOrder(tree.ancestors, tree.node);
    var k :| 0 <= k < |order| && order[k] == at;
    assert Matches(H, HashDomHistoryElement(H, ConvertDomElementToHistoryElement(at)), order[k]);
  }

  /**
   * A subtree whose root is interactable is searched from its real place in
   * the page: the root's own snapshot is found at the root, whatever
   * ancestors lie above it.
   */
  lemma SubtreeRootIsFoundInPlace(H: Hasher, root: Located)
    requires root.node.Element? && root.node.highlight.Some?
    ensures FindHistoryElementInTree(H, ConvertDomElementToHistoryElement(root), root) == Some(root)
  {
    SelfMatch(H, root);
  }

  /*
   * Fragility of the fingerprint.
   */

  lemma {:induction false} AttributesStringAppend(a: seq<(string, string)>, b: seq<(string, string)>)
    ensures AttributesString(a + b) == AttributesString(a) + AttributesString(b)
  {
    if |a| == 0 {
      assert a + b == b;
    } else {
      assert (a + b)[0] == a[0];
      assert (a + b)[1..] == a[1..] + b;
      AttributesStringAppend(a[1..], b);
    }
  }

  /** A single attribute renders as its own `key=value`. */
  lemma AttributesStringSingle(x: (string, string))
    ensures AttributesString([x]) == Render(x)
  {
    assert [x][1..] == [];
    assert Render(x) + "" == Render(x);
  }

  /** The attribute string around entry `i`: what precedes it, its own rendering, what follows. */
  lemma {:induction false} AttributesStringAround(attrs: seq<(string, string)>, i: nat)
    requires i < |attrs|
    ensures AttributesString(attrs)
            == AttributesString(attrs[..i]) + Render(attrs[i]) + AttributesString(attrs[i + 1..])
  {
    var before, x, after := attrs[..i], attrs[i], attrs[i + 1..];
    assert attrs == (before + [x]) + after;
    AttributesStringAppend(before + [x], after);
    AttributesStringAppend(before, [x]);
    AttributesStringSingle(x);
  }

  /** Strings that agree outside one differing middle part differ. */
  lemma {:induction false} DifferentMiddle(pre: string, a: string, b: string, post: string)
    requires a != b
    ensures pre + a + post != pre + b + post
  {
    if |a| == |b| {
      var x, y := pre + a + post, pre + b + post;
      assert x[|pre|..|pre| + |a|] == a;
      assert y[|pre|..|pre| + |b|] == b;
    }
  }

  /**
   * Sensitivity: with the key sequence fixed, changing the value of one
   * attribute changes the rendered attribute string, so only a collision of
   * `H` could keep the attribute digest equal.
   */
  lemma {:induction false} ChangingOneValueChangesAttributesString(attrs: seq<(string, string)>, i: nat, v: string)
    requires i < |attrs| && v != attrs[i].1
    ensures AttributesString(attrs[i := (attrs[i].0, v)]) != AttributesString(attrs)
  {
    var changed := attrs[i := (attrs[i].0, v)];
    assert changed[..i] == attrs[..i] && changed[i + 1..] == attrs[i + 1..];
    AttributesStringAround(attrs, i);
    AttributesStringAround(changed, i);
    var key := AttributesString(attrs[..i]) + attrs[i].0 + "=";
    var post := AttributesString(attrs[i + 1..]);
    assert AttributesString(attrs) == key + attrs[i].1 + post;
    assert AttributesString(changed) == key + v + post;
    DifferentMiddle(key, v, attrs[i].1, post);
  }

  /** With a collision-free `H`, a snapshot no longer matches once one attribute value changes. */
  lemma ChangingOneValueBreaksMatch(H: Hasher, h: DOMHistoryElement, at: Located, i: nat, v: string)
    requires forall x, y :: H(x) == H(y) ==> x == y
    requires at.node.Element? && h.attrs == at.node.attrs
    requires i < |at.node.attrs| && v != at.node.attrs[i].1
    ensures !CompareHistoryElementAndDomElement(
              H, h, Located(at.ancestors, at.node.(attrs := at.node.attrs[i := (at.node.attrs[i].0, v)])))
  {
    ChangingOneValueChangesAttributesString(at.node.attrs, i, v);
  }

  /** Attribute order is insertion order, not sorted: the same two attributes in the other order render differently. */
  lemma ReorderingAttributesChangesAttributesString()
    ensures AttributesString([("id", "go"), ("type", "submit")])
            != AttributesString([("type", "submit"), ("id", "go")])
  {
    assert AttributesString([("id", "go"), ("type", "submit")])[0] == 'i';
    assert AttributesString([("type", "submit"), ("id", "go")])[0] == 't';
  }

  /*
   * Worked examples.
   */

  /**
   * Two interactable siblings with the same tag and attributes have the same
   * fingerprint: the snapshot of the second one is found as the first one,
   * whatever `H` is, so the search need not return the snapshotted element.
   */
  lemma FoundElementNeedNotBeTheSnapshotted(H: Hasher, tree: Node, first: Node, second: Node)
    requires tree.Element? && tree.highlight.None? && tree.children == [first, second]
    requires first.Element? && second.Element? && first.highlight.Some? && second.highlight.Some?
    requires first.tag == second.tag && first.attrs == second.attrs
    ensures FindHistoryElementInTree(H, ConvertDomElementToHistoryElement(Located([tree.tag], second)), Located([], tree))
            == Some(Located([tree.tag], first))
  {
    var target := HashDomHistoryElement(H, ConvertDomElementToHistoryElement(Located([tree.tag], second)));
    var at := Located([tree.tag], first);
    var tail := PreOrder([tree.tag], first)[1..] + PreOrderChildren([tree.tag], [second]);
    assert [] + [tree.tag] == [tree.tag];
    PreOrderCons([], tree, first, [second]);
    assert PreOrder([], tree) == [Located([], tree), at] + tail;
    assert !Matches(H, target, Located([], tree));
    assert Matches(H, target, at);
    FirstMatchAppend(H, target, [Located([], tree), at], tail);
  }

  /** `<button id="go">` under `html > div > form`, and the same button after a `section` is inserted above the form. */
  const GoButton := Element("button", "/html/div/form/button", [("id", "go")], Some(0), false, [])
  const MovedGoButton := GoButton.(xpath := "/html/div/section/form/button")
  const MovedForm := Element("form", "/html/div/section/form", [], None, false, [MovedGoButton])
  const MovedSection := Element("section", "/html/div/section", [], None, false, [MovedForm])
  const MovedDiv := Element("div", "/html/div", [], None, false, [MovedSection])
  const PageAfterMove := Element("html", "/html", [], None, false, [MovedDiv])

  lemma PageAfterMoveOrder()
    ensures PreOrder([], PageAfterMove)
            == [Located([], PageAfterMove), Located(["html"], MovedDiv),
                Located(["html", "div"], MovedSection), Located(["html", "div", "section"], MovedForm),
                Located(["html", "div", "section", "form"], MovedGoButton)]
  {
    assert [] + ["html"] == ["html"];
    assert ["html"] + ["div"] == ["html", "div"];
    assert ["html", "div"] + ["section"] == ["html", "div", "section"];
    assert ["html", "div", "section"] + ["form"] == ["html", "div", "section", "form"];
    PreOrderLeaf(["html", "div", "section", "form"], MovedGoButton);
    PreOrderCons(["html", "div", "section"], MovedForm, MovedGoButton, []);
    PreOrderCons(["html", "div"], MovedSection, MovedForm, []);
    PreOrderCons(["html"], MovedDiv, MovedSection, []);
    PreOrderCons([], PageAfterMove, MovedDiv, []);
  }

  /** The button's recorded branch path leaves out the root `html` and ends with the button itself. */
  lemma GoButtonSnapshotPath()
    ensures ConvertDomElementToHistoryElement(Located(["html", "div", "form"], GoButton)).branchPath
            == ["div", "form", "button"]
  {
    assert ["html", "div", "form"] + ["button"] == ["html", "div", "form", "button"];
  }

  /** After the move the button's branch path has `section` in it. */
  lemma MovedGoButtonPath()
    ensures BranchPath(["html", "div", "section", "form"], "button") == ["div", "section", "form", "button"]
  {
    assert ["html", "div", "section", "form"] + ["button"] == ["html", "div", "section", "form", "button"];
  }

  /** `div/form/button` and `div/section/form/button` differ at their fifth character. */
  lemma MovedPathJoinsDifferently()
    ensures Join("/", ["div", "form", "button"]) != Join("/", ["div", "section", "form", "button"])
  {
    var before, after := ["div", "form", "button"], ["div", "section", "form", "button"];
    assert before[1..] == ["form", "button"];
    assert after[1..] == ["section", "form", "button"];
    assert Join("/", before)[4] == 'f';
    assert Join("/", after)[4] == 's';
  }

  /**
   * The branch path includes the element's own tag and excludes the root's:
   * the button's recorded path is `div/form/button`. After the move its path
   * is `div/section/form/button`, so a collision-free `H` no longer finds it.
   */
  lemma MovedElementIsNotFound(H: Hasher, snapshot: DOMHistoryElement, page: Node)
    requires forall x, y :: H(x) == H(y) ==> x == y
    requires snapshot == ConvertDomElementToHistoryElement(Located(["html", "div", "form"], GoButton))
    requires page == PageAfterMove
    ensures snapshot.branchPath == ["div", "form", "button"]
    ensures FindHistoryElementInTree(H, snapshot, Located([], page)).None?
  {
    GoButtonSnapshotPath();
    MovedGoButtonPath();
    MovedPathJoinsDifferently();
    var moved := Located(["html", "div", "section", "form"], MovedGoButton);
    assert H(Join("/", snapshot.branchPath)) != H(Join("/", BranchPath(moved.ancestors, MovedGoButton.tag)));
    var target := HashDomHistoryElement(H, snapshot);
    assert !Matches(H, target, moved);
    PageAfterMoveOrder();
    var order := PreOrder([], page);
    assert forall k :: 0 <= k < 4 ==> order[k].node.highlight.None?;
    assert order[4] == moved;
    assert |order| == 5;
    NotFoundWhenNothingMatches(H, snapshot, Located([], page));
  }
}
