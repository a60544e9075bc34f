/** The nodes themselves: objects with a parent pointer and a child array that their methods
    reassign in place. Each method is proved against the function on the whole forest. */
module CmfDomain {
  import opened Sequences
  import opened Chains
  import opened Forests
  import opened Reorders
  import opened Paths
  import opened Patterns
  import opened Runs
  import opened Shapes
  import opened Guards

  /** What a copy of a node has in common with it. */
  datatype Label = Label(id: string, kind: Kind, target: Node?)

  class Node {
    const kind: Kind
    const target: Node?  // what a Reference refers to
    var id: string
    var parent: Node?
    var children: seq<Node>

    constructor (kind: Kind, target: Node?)
      ensures this.kind == kind && this.target == target && id == "" && parent == null && children == []
    {
      this.kind, this.target, id, parent, children := kind, target, "", null, [];
    }

    ghost function Up(): Option<Node>
      reads this`parent
    {
      if parent == null then None else Some(parent)
    }

    // ---------- changing the tree ----------

    method MarkChanged(s: Space)
      requires this in s.nodes
      modifies s`changed
      ensures s.Tree() == Marked(old(s.Tree()), this)
    {
      s.changed := s.changed + {this};
      assert s.Tree().parent == old(s.Tree().parent);
      assert s.Tree().kids == old(s.Tree().kids);
    }

    /** The first half of `detachParent`: out of the child array of the parent. */
    method LeaveChildren(s: Space)
      requires s.Valid() && this in s.nodes
      modifies s`changed, s.nodes`children
      ensures s.Tree() == LeaveKids(old(s.Tree()), this)
    {
      s.ParentListed(this);
      if parent != null && this in parent.children {
        label Children:
        parent.children := Without(parent.children, this);
        s.WroteChildren@Children(parent);
        parent.MarkChanged(s);
      }
    }

    method DetachParent(s: Space)
      requires s.Valid() && this in s.nodes
      modifies s`changed, s.nodes`parent, s.nodes`children
      ensures s.Tree() == Forests.DetachParent(old(s.Tree()), this)
      ensures s.Valid()
    {
      DetachParentLinked(s.Tree(), this);
      LeaveChildren(s);
      label Parent:
      parent := null;
      s.WroteParent@Parent(this);
      MarkChanged(s);
    }

    method AppendChild(s: Space, child: Node)
      requires s.Valid() && this in s.nodes && child in s.nodes
      modifies s`changed, s.nodes`parent, s.nodes`children
      ensures s.Tree() == Forests.AppendChild(old(s.Tree()), this, child)
      ensures s.Valid()
    {
      AppendChildLinked(s.Tree(), this, child);
      child.DetachParent(s);
      label Parent:
      child.parent := this;
      s.WroteParent@Parent(child);
      label Children:
      children := children + [child];
      s.WroteChildren@Children(this);
      MarkChanged(s);
    }

    /** The loop runs over the array as it was before the first child left it. */
    method DetachChildren(s: Space)
      requires s.Sound() && this in s.nodes
      modifies s`changed, s.nodes`parent, s.nodes`children
      ensures s.Tree() == IsolateKids(old(s.Tree()), this, |old(children)|)
      ensures s.Sound()
      decreases Subtree(s.Tree().parent, this), 0
    {
      ghost var f := s.Tree();
      var snapshot := children;
      IsolateNone(f, this);
      for i := 0 to |snapshot|
        invariant s.Tree() == IsolateKids(f, this, i) && WellFormed(s.Tree())
      {
        NextSubtree(f, this, i);
        ChildSubtree(f, this, i);
        IsolateNext(f, this, i);
        snapshot[i].Detach(s);
        IsolateKidsWellFormed(f, this, i + 1);
      }
    }

    method Detach(s: Space)
      requires s.Sound() && this in s.nodes
      modifies s`changed, s.nodes`parent, s.nodes`children
      ensures s.Tree() == Isolate(old(s.Tree()), this)
      ensures s.Sound()
      decreases Subtree(s.Tree().parent, this), 1
    {
      IsolateLast(s.Tree(), this);
      DetachChildren(s);
      DetachParent(s);
    }

    /** The first half of `appendChildren`: the list to append. */
    method ArrangeChildren(newChildren: seq<Node>) returns (result: seq<Node>)
      requires NoDup(children)
      ensures result == Arrange(children, newChildren)
    {
      var newChildrenSet := set c | c in newChildren;
      var currentChildrenSet := set c | c in children;
      EnoughChildren(children, newChildren);
      result := [];
      if currentChildrenSet <= newChildrenSet {
        result := newChildren;
        assert forall c | c in children :: c in currentChildrenSet;
        RefillAll(children, newChildren, newChildrenSet);
      } else {
        var newChildIndex, i := 0, 0;
        while i < |children|
          invariant 0 <= i <= |children| && 0 <= newChildIndex <= |newChildren|
          invariant Slots(children[i..], newChildrenSet) <= |newChildren[newChildIndex..]|
          invariant result + Refill(children[i..], newChildren[newChildIndex..], newChildrenSet) ==
            Arrange(children, newChildren)
        {
          RefillNext(children, i, newChildren, newChildIndex, newChildrenSet);
          if children[i] in newChildrenSet {
            ghost var rest := Refill(children[i + 1..], newChildren[newChildIndex + 1..], newChildrenSet);
            Regroup(result, [newChildren[newChildIndex]], rest);
            result := result + [newChildren[newChildIndex]];
            newChildIndex := newChildIndex + 1;
          } else {
            Regroup(result, [children[i]], Refill(children[i + 1..], newChildren[newChildIndex..], newChildrenSet));
            result := result + [children[i]];
          }
          i := i + 1;
        }
        result := result + newChildren[newChildIndex..];
      }
    }

    method AppendChildren(s: Space, newChildren: seq<Node>)
      requires s.Valid() && this in s.nodes && forall c | c in newChildren :: c in s.nodes
      modifies s`changed, s.nodes`parent, s.nodes`children
      ensures NoDup(old(children)) && forall c | c in Arrange(old(children), newChildren) :: c in s.nodes
      ensures s.Tree() == AppendSeq(old(s.Tree()), this, Arrange(old(children), newChildren))
      ensures s.Valid()
    {
      ghost var f := s.Tree();
      s.KidsListed(this);
      var result := ArrangeChildren(newChildren);
      for i := 0 to |result|
        invariant s.Valid() && s.Tree() == AppendSeq(f, this, result[..i])
      {
        AppendSeqNext(f, this, result, i);
        AppendChild(s, result[i]);
      }
      assert result[..|result|] == result;
    }

    method SetParent(s: Space, newParent: Node?)
      requires s.Valid() && this in s.nodes && (newParent != null ==> newParent in s.nodes)
      modifies s`changed, s.nodes`parent, s.nodes`children
      ensures s.Tree() == Reparented(old(s.Tree()), this, if newParent == null then None else Some(newParent))
      ensures s.Valid()
    {
      if newParent == null {
        DetachParent(s);
      } else if parent != newParent {
        newParent.AppendChild(s, this);
      }
    }

    // ---------- looking at the tree ----------

    /** The ancestors, topmost first: the list that the loop collects is turned around. */
    method GetParents(s: Space) returns (parents: seq<Node>)
      requires s.Sound() && this in s.nodes
      ensures parents == Reversed<Node>(Chain<Node>(s.Tree().parent, this)[1..])
      ensures DownTo<Node>(s.Tree().parent, parents, this)
    {
      ReversedChain<Node>(s.Tree().parent, this);
      var list := NearestFirst(s, s.Tree().parent);
      parents := Reversed<Node>(list);
    }

    /** The loop. */
    method NearestFirst(s: Space, ghost up: map<Node, Option<Node>>) returns (list: seq<Node>)
      requires s.Sound() && this in s.nodes && up == s.Tree().parent
      ensures up == s.Tree().parent && list == Chain<Node>(up, this)[1..]
    {
      list := [];
      var parentNode := parent;
      UnderStep<Node>(up, this, this);
      while parentNode != null
        invariant parentNode != null ==> parentNode in s.nodes
        invariant list + (if parentNode == null then [] else Chain<Node>(up, parentNode)) == Chain<Node>(up, this)[1..]
        decreases if parentNode == null then 0 else Depth<Node>(up, parentNode) + 1
      {
        s.ParentListed(parentNode);
        assert up[parentNode] == parentNode.Up();
        if parentNode.parent != null {
          DepthOfParent<Node>(up, parentNode);
          Regroup<Node>(list, [parentNode], Chain<Node>(up, parentNode.parent));
        }
        list := list + [parentNode];
        parentNode := parentNode.parent;
      }
      assert list + [] == list;
    }

    method IsDescendant(s: Space, possibleParents: seq<Node>) returns (r: bool)
      requires s.Sound() && this in s.nodes
      ensures r <==> exists p :: p in possibleParents && Under<Node>(s.Tree().parent, this, p)
    {
      ghost var up: map<Node, Option<Node>> := s.Tree().parent;
      for i := 0 to |possibleParents|
        invariant forall p | p in possibleParents[..i] :: !Under<Node>(up, this, p)
      {
        var possibleParent := possibleParents[i];
        UnderStep<Node>(up, this, possibleParent);
        if this == possibleParent {
          assert possibleParent in possibleParents;
          return true;
        }
        var parentNode := parent;
        while parentNode != null
          invariant parentNode != null ==> parentNode in s.nodes
          invariant Under<Node>(up, this, possibleParent) <==>
            parentNode != null && Under<Node>(up, parentNode, possibleParent)
          decreases if parentNode == null then 0 else Depth<Node>(up, parentNode) + 1
        {
          UnderStep<Node>(up, parentNode, possibleParent);
          if parentNode == possibleParent {
            assert possibleParent in possibleParents;
            return true;
          }
          if parentNode.parent != null { DepthOfParent<Node>(up, parentNode); }
          parentNode := parentNode.parent;
        }
      }
      return false;
    }

    /** `traverse` with the action that collects the visited nodes. */
    method Traverse(s: Space, visited: seq<Node>) returns (nodes: seq<Node>)
      requires s.Sound() && this in s.nodes
      ensures nodes == visited + Preorder(s.Tree(), this)
      decreases Subtree(s.Tree().parent, this)
    {
      ghost var f := s.Tree();
      nodes := visited + [this];
      for i := 0 to |children|
        invariant nodes + PreorderKids(f, this, i) == visited + Preorder(f, this)
      {
        ChildSubtree(f, this, i);
        ghost var before := nodes;
        nodes := children[i].Traverse(s, nodes);
        Regroup(before, Preorder<Node>(f, children[i]), PreorderKids(f, this, i + 1));
      }
    }

    method GetDescendants(s: Space) returns (nodes: seq<Node>)
      requires s.Sound() && this in s.nodes
      ensures nodes == Preorder(s.Tree(), this)
    {
      nodes := Traverse(s, []);
    }

    method GetPath(s: Space) returns (path: string)
      requires s.Sound() && this in s.nodes
      ensures path == Paths.GetPath(s.Look(), this)
    {
      if parent == null {
        return "/" + id;
      }
      ghost var look := s.Look();
      path := "";
      var node: Node? := this;
      while node != null
        invariant node != null ==> node in s.nodes
        invariant PathFromTop(look, this) == (if node == null then "" else PathFromTop(look, node)) + path
        decreases if node == null then 0 else Depth<Node>(s.Tree().parent, node) + 1
      {
        ghost var above := PathAbove(look, node);
        assert look.tree.parent[node] == node.Up() && look.ids[node] == node.id;
        if node.parent != null { DepthOfParent<Node>(s.Tree().parent, node); }
        if node.id != "" {
          Regroup(above, "/" + node.id, path);
          path := "/" + node.id + path;
        } else {
          assert above + "" == above;
        }
        node := node.parent;
      }
      assert "" + path == path;
    }

    /** The loop over the children that ends at the first one with the given id. */
    method ChildWithId(s: Space, ghost look: Site<Node>, path: string) returns (r: Lookup<Node>)
      requires s.Sound() && look == s.Look() && this in s.nodes
      ensures look == s.Look() && r == ChildById(look, this, path)
    {
      ghost var ids := s.Ids();
      s.KidsListed(this);
      for i := 0 to |children|
        invariant FirstWithId(ids, children, path) == FirstWithId(ids, children[i..], path)
      {
        if path == children[i].id {
          return Found(children[i]);
        }
        assert children[i..][1..] == children[i + 1..];
      }
      return Missing;
    }

    method GetTop(s: Space) returns (node: Node)
      requires s.Sound() && this in s.nodes
      ensures node in s.nodes && node == Top(s.Look(), this)
    {
      node := this;
      while node.parent != null
        invariant node in s.nodes && Top(s.Look(), this) == Top(s.Look(), node)
        decreases Depth<Node>(s.Tree().parent, node)
      {
        assert s.Look().tree.parent[node] == node.Up();
        DepthOfParent<Node>(s.Tree().parent, node);
        node := node.parent;
      }
    }

    /** One turn of the loop over the segments of a path. */
    method Follow(s: Space, ghost look: Site<Node>, segment: string) returns (r: Lookup<Node>)
      requires s.Sound() && look == s.Look() && this in s.nodes && '/' !in segment
      ensures look == s.Look() && r == Paths.Follow(look, this, segment)
      decreases |segment|, 0
    {
      s.ParentListed(this);
      if segment == "" {
        return Found(this);
      }
      if segment == "." {
        var parentNode := if IsContainer(kind) then this else parent;
        return Found(if parentNode != null then parentNode else this);
      }
      if segment == ".." {
        if !IsContainer(kind) && parent == null {
          return Crash;
        }
        if parent != null { s.ParentListed(parent); }
        var parentNode := if IsContainer(kind) then parent else parent.parent;
        return Found(if parentNode != null then parentNode else this);
      }
      r := ChildWithId(s, look, segment);
    }

    /** The loop over the segments of a path. */
    method FollowAll(s: Space, ghost look: Site<Node>, segments: seq<string>) returns (r: Lookup<Node>)
      requires s.Sound() && look == s.Look() && this in s.nodes && forall x | x in segments :: '/' !in x
      ensures look == s.Look() && r == Walk(look, this, segments)
    {
      var node := this;
      for i := 0 to |segments|
        invariant look == s.Look() && node in s.nodes
        invariant Walk(look, this, segments) == Walk(look, node, segments[i..])
      {
        assert segments[i] in segments && segments[i..][1..] == segments[i + 1..];
        r := node.Follow(s, look, segments[i]);
        if !r.Found? {
          return;
        }
        node := r.node;
      }
      return Found(node);
    }

    /** Resolves a path; no path stands for `null`. */
    method GetChild(s: Space, givenPath: Option<string>) returns (r: Lookup<Node>)
      requires s.Sound() && this in s.nodes
      ensures r == if givenPath.None? then Missing else Paths.GetChild(s.Look(), this, givenPath.value)
    {
      if givenPath.None? {
        return Missing;
      }
      var path := givenPath.value;
      if path == "" {
        return Found(this);
      }
      if '/' !in path {
        r := ChildWithId(s, s.Look(), path);
        return;
      }
      if path[0] == '/' {
        var node := GetTop(s);
        var rootPath := node.GetPath(s);
        var rest := RemoveFirst(path, rootPath);
        assert rest == RemoveFirst(path, Paths.GetPath(s.Look(), Top(s.Look(), this)));
        if rest.None? {
          return Crash;
        }
        r := node.FollowAll(s, s.Look(), Split(rest.value));
        assert r == Walk(s.Look(), Top(s.Look(), this), Split(rest.value));
      } else {
        r := FollowAll(s, s.Look(), Split(path));
      }
    }

    /** `getChildren` of one class. */
    method GetChildrenOf(s: Space, k: Kind, ghost f: Forest<Node>, ghost kinds: map<Node, Kind>)
      returns (r: seq<Node>)
      requires s.Sound() && f == s.Tree() && kinds == s.Kinds() && this in s.nodes
      ensures f == s.Tree() && kinds == s.Kinds() && r == KidsOfKind(f, kinds, this, k)
    {
      s.KidsListed(this);
      r := Filtered(children, k, kinds);
    }

    /** Its loop. */
    static method Filtered(list: seq<Node>, k: Kind, ghost kinds: map<Node, Kind>) returns (r: seq<Node>)
      requires forall x | x in list :: x in kinds && kinds[x] == x.kind
      ensures r == OfKind(kinds, list, k)
    {
      r := [];
      ghost var all := OfKind(kinds, list, k);
      assert list[0..] == list && r + all == all;
      for i := 0 to |list|
        invariant r + OfKind(kinds, list[i..], k) == all
      {
        OfKindNext(kinds, list, i, k, r);
        if list[i].kind == k {
          r := r + [list[i]];
        }
      }
      assert r + [] == r;
    }

    /** The upward search for guards; an empty result stands for `null`. */
    method GetGuards(s: Space, k: Kind) returns (guards: seq<Node>)
      requires s.Sound() && this in s.nodes
      ensures match UpwardGuards(s.Tree(), s.Kinds(), this, k) case Some(g) => guards == g case None => guards == []
    {
      guards := FindGuards(s, k, s.Tree(), s.Kinds());
    }

    /** The same in a known state, which stays. */
    method FindGuards(s: Space, k: Kind, ghost f: Forest<Node>, ghost kinds: map<Node, Kind>)
      returns (guards: seq<Node>)
      requires s.Sound() && f == s.Tree() && kinds == s.Kinds() && this in s.nodes
      ensures f == s.Tree() && kinds == s.Kinds()
      ensures match UpwardGuards(f, kinds, this, k) case Some(g) => guards == g case None => guards == []
    {
      var currentParent: Node? := this;
      while currentParent != null
        invariant f == s.Tree() && kinds == s.Kinds() && (currentParent != null ==> currentParent in s.nodes)
        invariant UpwardGuards(f, kinds, this, k) ==
          if currentParent == null then None else UpwardGuards<Node>(f, kinds, currentParent, k)
        decreases if currentParent == null then 0 else Depth<Node>(f.parent, currentParent) + 1
      {
        guards := currentParent.GetChildrenOf(s, k, f, kinds);
        if guards != [] {
          return;
        }
        assert f.parent[currentParent] == currentParent.Up();
        if currentParent.parent != null { DepthOfParent<Node>(f.parent, currentParent); }
        currentParent := currentParent.parent;
      }
      return [];
    }

    // ---------- validating a child ----------

    method ValidateDuplicate(s: Space, potentialChild: Node, potentialId: Option<string>) returns (e: Option<NodeError>)
      requires s.Sound() && this in s.nodes && potentialChild in s.nodes
      ensures e == if Duplicate(s.Bare(), this, potentialChild, potentialId) then Some(IllegalDuplicate) else None
    {
      s.KidsListed(this);
      if kind != Trash {
        for i := 0 to |children|
          invariant forall k | k in children[..i] && k != potentialChild :: Some(k.id) != potentialId
        {
          if Some(children[i].id) == potentialId && children[i] != potentialChild {
            assert children[i] in children;
            return Some(IllegalDuplicate);
          }
        }
      }
      if kind == Factory {
        for i := 0 to |children|
          invariant forall k | k in children[..i] && k != potentialChild :: k.kind != potentialChild.kind
        {
          if children[i] != potentialChild && children[i].kind == potentialChild.kind {
            assert children[i] in children;
            return Some(IllegalDuplicate);
          }
        }
      }
      return None;
    }

    method ValidateNesting(s: Space, potentialChild: Node) returns (e: Option<NodeError>)
      requires s.Sound() && this in s.nodes && potentialChild in s.nodes
      ensures e == if Under<Node>(s.Tree().parent, this, potentialChild) then Some(IllegalNesting) else None
    {
      ghost var up: map<Node, Option<Node>> := s.Tree().parent;
      var parentNode: Node? := this;
      while parentNode != null
        invariant parentNode != null ==> parentNode in s.nodes
        invariant Under<Node>(up, this, potentialChild) <==>
          parentNode != null && Under<Node>(up, parentNode, potentialChild)
        decreases if parentNode == null then 0 else Depth<Node>(up, parentNode) + 1
      {
        UnderStep<Node>(up, parentNode, potentialChild);
        if potentialChild == parentNode {
          return Some(IllegalNesting);
        }
        if parentNode.parent != null { DepthOfParent<Node>(up, parentNode); }
        parentNode := parentNode.parent;
      }
      return None;
    }

    method ValidateChild(s: Space, potentialChild: Node, potentialId: Option<string>) returns (e: Option<NodeError>)
      requires s.Sound() && this in s.nodes && potentialChild in s.nodes
      ensures e == Validate(s.Bare(), this, potentialChild, potentialId)
    {
      if potentialId.Some? && !ValidId(potentialId.value) {
        return Some(IllegalId);
      }
      e := ValidateDuplicate(s, potentialChild, potentialId);
      if e.None? {
        e := ValidateNesting(s, potentialChild);
      }
    }

    // ---------- copying ----------

    /** `getClass().newInstance()`: a fresh node of the same class, known to the space. */
    method NewInstance(s: Space) returns (node: Node)
      modifies s`nodes
      ensures fresh(node) && s.nodes == old(s.nodes) + {node}
      ensures node.id == "" && node.kind == kind && node.target == target
      ensures s.Tree() == Created(old(s.Tree()), node) && s.Labels() == old(s.Labels())[node := Label("", kind, target)]
    {
      node := new Node(kind, target);
      s.nodes := s.nodes + {node};
      s.Registered(node);
    }

    method SetId(s: Space, newId: string)
      requires this in s.nodes
      modifies this`id
      ensures id == newId
      ensures s.Tree() == old(s.Tree()) && s.Labels() == old(s.Labels())[this := Label(newId, kind, target)]
    {
      id := newId;
      s.WroteId(this);
    }

    /** A copy of this node and, if `recursive`, of everything below it. */
    method Copy(s: Space, recursive: bool) returns (node: Node)
      requires s.Sound() && this in s.nodes
      modifies s`changed, s`nodes, s.nodes`parent, s.nodes`children
      ensures old(s.nodes) <= s.nodes && forall n | n in s.nodes :: n in old(s.nodes) || fresh(n)
      ensures recursive ==> Copied(old(s.Tree()), old(s.Labels()), s.Tree(), s.Labels(), this, node)
      ensures !recursive ==> s.Tree() == Created(old(s.Tree()), node)
      ensures !recursive ==> s.Labels() == old(s.Labels())[node := Label(id, kind, target)]
      decreases Unfold(s.Tree(), s.Labels(), this), 3
    {
      if recursive {
        node := CopyAll(s);
      } else {
        node := CopyAlone(s);
      }
    }

    method CopyAlone(s: Space) returns (node: Node)
      requires s.Sound() && this in s.nodes
      modifies s`nodes
      ensures fresh(node) && s.nodes == old(s.nodes) + {node}
      ensures s.Tree() == Created(old(s.Tree()), node)
      ensures s.Labels() == old(s.Labels())[node := Label(id, kind, target)]
    {
      ghost var f, labels := s.Tree(), s.Labels();
      node := NewInstance(s);
      node.NameAs(s, id, f, labels);
    }

    /** A new node gets its id. */
    method NameAs(s: Space, newId: string, ghost f: Forest<Node>, ghost labels: map<Node, Label>)
      requires this in s.nodes && s.Tree() == Created(f, this) && s.Labels() == labels[this := Label("", kind, target)]
      modifies this`id
      ensures s.Tree() == Created(f, this) && s.Labels() == labels[this := Label(newId, kind, target)]
    {
      SetId(s, newId);
    }

    method CopyAll(s: Space) returns (node: Node)
      requires s.Sound() && this in s.nodes
      modifies s`changed, s`nodes, s.nodes`parent, s.nodes`children
      ensures old(s.nodes) <= s.nodes && forall n | n in s.nodes :: n in old(s.nodes) || fresh(n)
      ensures Copied(old(s.Tree()), old(s.Labels()), s.Tree(), s.Labels(), this, node)
      decreases Unfold(s.Tree(), s.Labels(), this), 2
    {
      ghost var f, labels := s.Tree(), s.Labels();
      assert labels[this] == Label(id, kind, target);
      node := CopyWithChildren(s);
      CopyDone(f, labels, s.Tree(), s.Labels(), this, node);
      node.SetId(s, id);
    }

    /** The recursive copy before it gets its id. */
    method CopyWithChildren(s: Space) returns (node: Node)
      requires s.Sound() && this in s.nodes
      modifies s`changed, s`nodes, s.nodes`parent, s.nodes`children
      ensures old(s.nodes) <= s.nodes && forall n | n in s.nodes :: n in old(s.nodes) || fresh(n)
      ensures fresh(node) && node.kind == kind && node.target == target
      ensures CopiedFirst(old(s.Tree()), old(s.Labels()), s.Tree(), s.Labels(), this, node, |old(s.Tree()).kids[this]|)
      decreases Unfold(s.Tree(), s.Labels(), this), 1
    {
      ghost var f, labels := s.Tree(), s.Labels();
      ghost var g, gl;
      node, g, gl := NewCopy(s, f, labels);
      g, gl := CopyChildren(s, node, f, labels, g, gl);
    }

    /** The copy before it gets children. */
    method NewCopy(s: Space, ghost f: Forest<Node>, ghost labels: map<Node, Label>)
      returns (node: Node, ghost g: Forest<Node>, ghost gl: map<Node, Label>)
      requires s.Sound() && this in s.nodes && f == s.Tree() && labels == s.Labels()
      modifies s`nodes
      ensures fresh(node) && s.nodes == old(s.nodes) + {node} && node.kind == kind && node.target == target
      ensures g == s.Tree() && gl == s.Labels() && CopiedFirst(f, labels, g, gl, this, node, 0)
    {
      node := NewInstance(s);
      g, gl := s.Tree(), s.Labels();
      CopyNone(f, labels, g, gl, this, node);
    }

    /** The copying loop. */
    method CopyChildren(s: Space, node: Node, ghost f: Forest<Node>, ghost labels: map<Node, Label>,
                        ghost f0: Forest<Node>, ghost labels0: map<Node, Label>)
      returns (ghost g: Forest<Node>, ghost gl: map<Node, Label>)
      requires this in s.nodes && node in s.nodes && f0 == s.Tree() && labels0 == s.Labels()
      requires this != node && CopiedFirst(f, labels, f0, labels0, this, node, 0)
      modifies s`changed, s`nodes, s.nodes`parent, s.nodes`children
      ensures old(s.nodes) <= s.nodes && forall n | n in s.nodes :: n in old(s.nodes) || fresh(n)
      ensures g == s.Tree() && gl == s.Labels() && CopiedFirst(f, labels, g, gl, this, node, |f.kids[this]|)
      decreases Unfold(f, labels, this), 0, 2
    {
      g, gl := f0, labels0;
      for i := 0 to |children|
        invariant old(s.nodes) <= s.nodes && forall n | n in s.nodes :: n in old(s.nodes) || fresh(n)
        invariant g == s.Tree() && gl == s.Labels()
        invariant CopiedFirst(f, labels, g, gl, this, node, i)
      {
        GrownShape(f, labels, g, gl, this);
        assert children == g.kids[this];
        s.KidsListed(this);
        ghost var c, h, hl := AppendCopy(s, node, i, g, gl);
        CopyNext(f, labels, g, gl, h, hl, this, node, i, c);
        g, gl := Forests.AppendChild(h, node, c), hl;
      }
    }

    /** `appendChild`, which leaves the labels alone. */
    method AppendCopied(s: Space, child: Node)
      requires s.Valid() && this in s.nodes && child in s.nodes
      modifies s`changed, s.nodes`parent, s.nodes`children
      ensures s.Tree() == Forests.AppendChild(old(s.Tree()), this, child) && s.Labels() == old(s.Labels())
    {
      AppendChild(s, child);
    }

    /** One turn of the copying loop; `h` is the forest between the copying and the appending. */
    method AppendCopy(s: Space, node: Node, i: nat, ghost g: Forest<Node>, ghost gl: map<Node, Label>)
      returns (ghost c: Node, ghost h: Forest<Node>, ghost hl: map<Node, Label>)
      requires s.Sound() && this in s.nodes && node in s.nodes && this != node && i < |children|
      requires g == s.Tree() && gl == s.Labels() && children[i] in s.nodes
      modifies s`changed, s`nodes, s.nodes`parent, s.nodes`children
      ensures old(s.nodes) <= s.nodes && forall n | n in s.nodes :: n in old(s.nodes) || fresh(n)
      ensures Copied(g, gl, h, hl, old(children[i]), c) && node in h.kids && c in h.kids
      ensures s.Tree() == Forests.AppendChild(h, node, c) && s.Labels() == hl
      decreases Unfold(s.Tree(), s.Labels(), this), 0, 1
    {
      var copy;
      copy, h, hl := CopyKid(s, i, g, gl);
      c := copy;
      node.AppendCopied(s, copy);
    }

    /** The copying in it. */
    method CopyKid(s: Space, i: nat, ghost g: Forest<Node>, ghost gl: map<Node, Label>)
      returns (copy: Node, ghost h: Forest<Node>, ghost hl: map<Node, Label>)
      requires s.Sound() && this in s.nodes && i < |children|
      requires g == s.Tree() && gl == s.Labels() && children[i] in s.nodes
      modifies s`changed, s`nodes, s.nodes`parent, s.nodes`children
      ensures old(s.nodes) <= s.nodes && forall n | n in s.nodes :: n in old(s.nodes) || fresh(n)
      ensures s.Valid() && copy in s.nodes && h == s.Tree() && hl == s.Labels() && h.kids.Keys == s.nodes
      ensures Copied(g, gl, h, hl, old(children[i]), copy)
      decreases Unfold(s.Tree(), s.Labels(), this), 0, 0
    {
      UnfoldFirstAt(g, gl, this, |children|, i);
      copy := children[i].Copy(s, true);
      h, hl := s.Tree(), s.Labels();
      assert copy.Up() == h.parent[copy];
    }
  }

  /** The static state of the node class: the set of changed nodes, and, for the proofs, which
      nodes there are. */
  class Space {
    var changed: set<Node>
    ghost var nodes: set<Node>

    ghost function Tree(): Forest<Node>
      reads this, nodes`parent, nodes`children
    {
      Forest(map n | n in nodes :: n.Up(), map n | n in nodes :: n.children, changed)
    }

    ghost function Ids(): map<Node, string>
      reads this`nodes, nodes`id
    {
      map n | n in nodes :: n.id
    }

    ghost function Kinds(): map<Node, Kind>
      reads this`nodes
    {
      map n | n in nodes :: n.kind
    }

    ghost function Targets(): map<Node, Option<Node>>
      reads this`nodes
    {
      map n | n in nodes :: if n.target == null then None else Some(n.target)
    }

    ghost function Labels(): map<Node, Label>
      reads this`nodes, nodes`id
    {
      map n | n in nodes :: Label(n.id, n.kind, n.target)
    }

    /** What paths are resolved against. */
    ghost function Look(): Site<Node>
      reads this, nodes
    {
      Site(Tree(), Ids(), set n | n in nodes && IsContainer(n.kind))
    }

    /** The world without a database, as validation sees it. */
    ghost function Bare(): World<Node>
      reads this, nodes
    {
      World(Tree(), Ids(), Kinds(), map[], map[])
    }

    /** Nodes refer to nodes of this space, and parents and child arrays are in step. */
    ghost predicate Valid()
      reads this, nodes`parent, nodes`children
    {
      Linked(Tree())
    }

    /** Moreover no parent chain runs in a circle. */
    ghost predicate Sound()
      reads this, nodes`parent, nodes`children
    {
      WellFormed(Tree())
    }

    lemma ParentListed(n: Node)
      requires Valid() && n in nodes
      ensures n.parent != null ==> n.parent in nodes && n in n.parent.children
    {
      assert Tree().parent[n] == n.Up();
    }

    lemma KidsListed(n: Node)
      requires Valid() && n in nodes
      ensures NoDup(n.children) && forall c | c in n.children :: c in nodes
    {
      assert Tree().kids[n] == n.children;
      forall c | c in n.children ensures c in nodes {
        assert c in Tree().kids[n] && c in Tree().parent;
      }
    }

    /** Two states that differ in the parent of `n` only. */
    twostate lemma WroteParent(n: Node)
      requires n in nodes && nodes == old(nodes) && changed == old(changed)
      requires forall m | m in nodes :: m.children == old(m.children) && (m != n ==> m.parent == old(m.parent))
      ensures Tree() == old(Tree()).(parent := old(Tree().parent)[n := n.Up()])
    {
      assert Tree().parent == old(Tree().parent)[n := n.Up()];
      assert Tree().kids == old(Tree().kids);
    }

    /** Two states that differ in the child array of `n` only. */
    twostate lemma WroteChildren(n: Node)
      requires n in nodes && nodes == old(nodes) && changed == old(changed)
      requires forall m | m in nodes :: m.parent == old(m.parent) && (m != n ==> m.children == old(m.children))
      ensures Tree() == old(Tree()).(kids := old(Tree().kids)[n := n.children])
    {
      assert Tree().parent == old(Tree().parent);
      assert Tree().kids == old(Tree().kids)[n := n.children];
    }

    /** A node without parent and children joins the space. */
    twostate lemma Registered(new n: Node)
      requires n !in old(nodes) && nodes == old(nodes) + {n} && changed == old(changed)
      requires n.parent == null && n.children == []
      requires forall m | m in old(nodes) ::
        m.parent == old(m.parent) && m.children == old(m.children) && m.id == old(m.id)
      ensures Tree() == Created(old(Tree()), n) && Labels() == old(Labels())[n := Label(n.id, n.kind, n.target)]
    {
      assert Tree().parent == old(Tree().parent)[n := None];
      assert Tree().kids == old(Tree().kids)[n := []];
    }

    /** Two states that differ in the id of `n` only. */
    twostate lemma WroteId(n: Node)
      requires n in nodes && nodes == old(nodes) && changed == old(changed)
      requires forall m | m in nodes ::
        m.parent == old(m.parent) && m.children == old(m.children) && (m != n ==> m.id == old(m.id))
      ensures Tree() == old(Tree()) && Labels() == old(Labels())[n := Label(n.id, n.kind, n.target)]
    {
      assert Tree().parent == old(Tree().parent);
      assert Tree().kids == old(Tree().kids);
    }
  }
}
